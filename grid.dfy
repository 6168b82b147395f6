/**
 * The interactive background grid (assets/js/grid-interactive.js).
 *
 * A grid of cells covers the viewport; the cell under the pointer carries the
 * `flipped` class. The DOM is abstracted away: a cell is a record holding its
 * coordinates, its pixel position and whether it is flipped; the module-level
 * state of the script (GRID_WIDTH, GRID_HEIGHT, gridContainer, cells,
 * activeCells) becomes the fields of class Grid.
 */
module GridInteractive {

  datatype Option<T> = None | Some(value: T)

  /** Cell dimensions in pixels. */
  datatype CellSize = CellSize(width: nat, height: nat)

  /** Inner window widths up to and including this value get the small cells. */
  const Breakpoint: int := 736
  const SmallCells: CellSize := CellSize(40, 27)
  const LargeCells: CellSize := CellSize(80, 53)

  /** getGridSize: the breakpoint rule on window.innerWidth. */
  function GridSize(innerWidth: int): (r: CellSize)
    ensures r.width > 0 && r.height > 0
    ensures r == SmallCells <==> innerWidth <= Breakpoint
    ensures r == LargeCells <==> innerWidth > Breakpoint
  {
    if innerWidth <= Breakpoint then SmallCells else LargeCells
  }

  /**
   * The dimensions createGrid reads from the browser:
   * document.documentElement.clientWidth/clientHeight and
   * window.innerWidth/innerHeight.
   */
  datatype Viewport = Viewport(clientWidth: nat, clientHeight: nat, innerWidth: nat, innerHeight: nat)

  function Max(a: nat, b: nat): nat { if a < b then b else a }

  /** The width the grid has to cover: the larger of the two reported widths. */
  function ViewportWidth(vp: Viewport): (r: nat)
    ensures r >= vp.clientWidth && r >= vp.innerWidth
    ensures r == vp.clientWidth || r == vp.innerWidth
  {
    Max(vp.clientWidth, vp.innerWidth)
  }

  /** The height the grid has to cover: the larger of the two reported heights. */
  function ViewportHeight(vp: Viewport): (r: nat)
    ensures r >= vp.clientHeight && r >= vp.innerHeight
    ensures r == vp.clientHeight || r == vp.innerHeight
  {
    Max(vp.clientHeight, vp.innerHeight)
  }

  /** Math.ceil(a / b) for non-negative a and positive b. */
  function CeilDiv(a: nat, b: nat): nat
    requires b > 0
  {
    (a + b - 1) / b
  }

  /** CeilDiv(a, b) is the fewest b-pixel cells that together cover a pixels. */
  lemma CeilDivCovers(a: nat, b: nat)
    requires b > 0
    ensures CeilDiv(a, b) * b >= a
    ensures CeilDiv(a, b) == 0 || (CeilDiv(a, b) - 1) * b < a
  {
  }

  /** One grid cell: its coordinates, its pixel position and its `flipped` class. */
  datatype Cell = Cell(col: int, row: int, left: int, top: int, flipped: bool)

  /** The cell whose data-col and data-row are `col` and `row`. */
  predicate At(c: Cell, col: int, row: int) {
    c.col == col && c.row == row
  }

  /** The pixel point (x, y) lies inside cell c's w-by-h rectangle. */
  predicate Covers(c: Cell, w: int, h: int, x: int, y: int) {
    c.left <= x < c.left + w && c.top <= y < c.top + h
  }

  /** The i-th cell of a row-major grid `cols` cells wide, unflipped. */
  function CellAt(i: nat, cols: nat, w: int, h: int): Cell
    requires cols > 0
  {
    Cell(i % cols, i / cols, (i % cols) * w, (i / cols) * h, false)
  }

  /** The first n cells of a row-major grid `cols` cells wide. */
  function Prefix(cols: nat, n: nat, w: int, h: int): (r: seq<Cell>)
    requires cols > 0
    ensures |r| == n
  {
    seq(n, i requires 0 <= i < n => CellAt(i, cols, w, h))
  }

  /** The cells createGrid appends, in the order it appends them. */
  function Layout(cols: nat, rows: nat, w: int, h: int): (r: seq<Cell>)
    requires cols > 0
    ensures |r| == cols * rows
  {
    Prefix(cols, cols * rows, w, h)
  }

  /**
   * `cells` is the row-major grid `cols` by `rows` of w-by-h cells, whatever
   * their flipped classes: cell i is the layout's cell i.
   */
  ghost predicate LaidOut(cells: seq<Cell>, cols: nat, rows: nat, w: int, h: int) {
    cols > 0 && |cells| == cols * rows &&
    forall i :: 0 <= i < |cells| ==> cells[i].(flipped := false) == CellAt(i, cols, w, h)
  }

  // ---------------------------------------------------------------------------
  // Arithmetic facts about row-major indexing and floor division

  /** A positive multiple of a positive number is at least that number. */
  lemma MulAtLeast(d: int, b: int)
    requires d >= 1 && b > 0
    ensures d * b >= b
  {
  }

  /** Quotient and remainder by a positive divisor are unique. */
  lemma DivModUnique(a: int, b: int, q: int, r: int)
    requires b > 0 && 0 <= r < b && a == q * b + r
    ensures a / b == q && a % b == r
  {
    var q', r' := a / b, a % b;
    assert q' * b + r' == a;
    assert (q' - q) * b == r - r';
    if q' > q {
      MulAtLeast(q' - q, b);
    } else if q' < q {
      MulAtLeast(q - q', b);
    }
  }

  /** Column `col` of row `row` is stored at index row * cols + col. */
  lemma RowMajor(row: nat, col: nat, cols: nat)
    requires col < cols
    ensures (row * cols + col) / cols == row && (row * cols + col) % cols == col
  {
    DivModUnique(row * cols + col, cols, row, col);
  }

  /** Floor division picks the one cell-sized band that contains x. */
  lemma FloorDiv(x: int, w: int, c: int)
    requires w > 0
    ensures c * w <= x < c * w + w <==> c == x / w
  {
    if c * w <= x < c * w + w {
      DivModUnique(x, w, c, x - c * w);
    }
  }

  /** An index below cols * rows lies in one of the first `rows` rows. */
  lemma RowBound(i: nat, cols: nat, rows: nat)
    requires cols > 0 && i < cols * rows
    ensures i / cols < rows
  {
  }

  /** Row-major indices of in-range coordinates stay below cols * rows. */
  lemma IndexBound(row: nat, col: nat, cols: nat, rows: nat)
    requires col < cols && row < rows
    ensures row * cols + col < cols * rows
  {
    assert row * cols + col < row * cols + cols == (row + 1) * cols;
    assert (row + 1) * cols <= rows * cols;
  }

  // ---------------------------------------------------------------------------
  // The layout createGrid produces

  /** Appending the next cell extends a prefix by one. */
  lemma PrefixSnoc(cols: nat, n: nat, w: int, h: int)
    requires cols > 0
    ensures Prefix(cols, n + 1, w, h) == Prefix(cols, n, w, h) + [CellAt(n, cols, w, h)]
  {
  }

  /** Layout is a laid-out grid. */
  lemma LayoutLaidOut(cols: nat, rows: nat, w: int, h: int)
    requires cols > 0
    ensures LaidOut(Layout(cols, rows, w, h), cols, rows, w, h)
    ensures forall i :: 0 <= i < cols * rows ==> !Layout(cols, rows, w, h)[i].flipped
  {
  }

  /**
   * Cells are stored row-major: index row * cols + col holds the unflipped
   * cell (col, row) at pixel offset (col * w, row * h).
   */
  lemma LayoutRowMajor(cols: nat, rows: nat, w: int, h: int, col: nat, row: nat)
    requires col < cols && row < rows
    ensures row * cols + col < |Layout(cols, rows, w, h)|
    ensures Layout(cols, rows, w, h)[row * cols + col] == Cell(col, row, col * w, row * h, false)
  {
    IndexBound(row, col, cols, rows);
    RowMajor(row, col, cols);
  }

  /** In a laid-out grid no two cells share their (col, row) coordinates. */
  lemma CoordinatesUnique(cells: seq<Cell>, cols: nat, rows: nat, w: int, h: int, i: nat, j: nat)
    requires LaidOut(cells, cols, rows, w, h)
    requires i < |cells| && j < |cells|
    requires At(cells[i], cells[j].col, cells[j].row)
    ensures i == j
  {
  }

  // ---------------------------------------------------------------------------
  // findCell

  /** findCell(col, row): the index of the first cell with those coordinates. */
  function FindCell(cells: seq<Cell>, col: int, row: int): (r: Option<nat>)
    ensures r.Some? ==> r.value < |cells| && At(cells[r.value], col, row)
    ensures r.Some? ==> forall j :: 0 <= j < r.value ==> !At(cells[j], col, row)
    ensures r.None? ==> forall j :: 0 <= j < |cells| ==> !At(cells[j], col, row)
  {
    if cells == [] then None
    else if At(cells[0], col, row) then Some(0)
    else match FindCell(cells[1..], col, row)
      case None => None
      case Some(i) => Some(i + 1)
  }

  /**
   * On a laid-out grid findCell finds index row * cols + col exactly when the
   * coordinates are in range, and nothing for negative or too large ones.
   */
  lemma FindCellLaidOut(cells: seq<Cell>, cols: nat, rows: nat, w: int, h: int, col: int, row: int)
    requires LaidOut(cells, cols, rows, w, h)
    ensures FindCell(cells, col, row) ==
      if 0 <= col < cols && 0 <= row < rows then Some(row * cols + col) else None
  {
    var r := FindCell(cells, col, row);
    if 0 <= col < cols && 0 <= row < rows {
      var k := row * cols + col;
      IndexBound(row, col, cols, rows);
      RowMajor(row, col, cols);
      assert At(cells[k], col, row);
      assert r.Some?;
      CoordinatesUnique(cells, cols, rows, w, h, r.value, k);
    } else if r.Some? {
      var j := r.value;
      RowBound(j, cols, rows);
      assert false;
    }
  }

  // ---------------------------------------------------------------------------
  // The cell under the pointer

  /** The indices an optional index stands for. */
  function Members(o: Option<nat>): set<nat> {
    match o
    case None => {}
    case Some(i) => {i}
  }

  /** The active set updateCellsUnderCursor leaves: the cell findCell returns, if any. */
  function Target(cells: seq<Cell>, col: int, row: int): (t: set<nat>)
    ensures |t| <= 1
    ensures forall i :: i in t ==> i < |cells| && At(cells[i], col, row)
    ensures t == {} <==> forall j :: 0 <= j < |cells| ==> !At(cells[j], col, row)
  {
    Members(FindCell(cells, col, row))
  }

  /**
   * On a laid-out grid the pointer at (x, y) targets the cell at
   * (floor(x / w), floor(y / h)) when that is in range and nothing otherwise;
   * equivalently, it targets exactly the cell whose rectangle contains (x, y).
   */
  lemma PointerTarget(cells: seq<Cell>, cols: nat, rows: nat, w: int, h: int, x: int, y: int)
    requires LaidOut(cells, cols, rows, w, h) && w > 0 && h > 0
    ensures Target(cells, x / w, y / h) ==
      if 0 <= x / w < cols && 0 <= y / h < rows then {(y / h) * cols + x / w} else {}
    ensures forall i :: 0 <= i < |cells| ==> (i in Target(cells, x / w, y / h) <==> Covers(cells[i], w, h, x, y))
  {
    FindCellLaidOut(cells, cols, rows, w, h, x / w, y / h);
    forall i | 0 <= i < |cells|
      ensures i in Target(cells, x / w, y / h) <==> Covers(cells[i], w, h, x, y)
    {
      FloorDiv(x, w, cells[i].col);
      FloorDiv(y, h, cells[i].row);
      if At(cells[i], x / w, y / h) {
        var r := FindCell(cells, x / w, y / h);
        CoordinatesUnique(cells, cols, rows, w, h, i, r.value);
      }
    }
  }

  // ---------------------------------------------------------------------------
  // Flipped flags and the active set

  /** Exactly the cells whose indices are in `active` carry the flipped class. */
  ghost predicate FlagsMatch(cells: seq<Cell>, active: set<nat>) {
    (forall i :: i in active ==> i < |cells|) &&
    (forall i :: 0 <= i < |cells| ==> (cells[i].flipped <==> i in active))
  }

  /**
   * `after` is `before` with only the flipped classes changed, so that exactly
   * the cells whose indices are in s are flipped.
   */
  ghost predicate Reflagged(before: seq<Cell>, after: seq<Cell>, s: set<nat>) {
    |after| == |before| &&
    forall i :: 0 <= i < |after| ==> after[i] == before[i].(flipped := i in s)
  }

  /** Flipping one more cell adds its index to the flipped set. */
  lemma ReflaggedFlip(before: seq<Cell>, after: seq<Cell>, s: set<nat>, u: nat)
    requires Reflagged(before, after, s) && u < |after|
    ensures Reflagged(before, after[u := after[u].(flipped := true)], s + {u})
  {
  }

  /** Changing flipped classes leaves the layout alone. */
  lemma ReflaggedLaidOut(before: seq<Cell>, after: seq<Cell>, s: set<nat>, cols: nat, rows: nat, w: int, h: int)
    requires LaidOut(before, cols, rows, w, h) && Reflagged(before, after, s)
    requires forall i :: i in s ==> i < |before|
    ensures LaidOut(after, cols, rows, w, h) && FlagsMatch(after, s)
  {
  }

  /** A quotient stays below c when the dividend stays below c multiples of the divisor. */
  lemma QuotientBelow(x: nat, w: int, c: int)
    requires w > 0 && x < c * w
    ensures x / w < c
  {
  }

  /**
   * The grid createGrid builds leaves no pixel of the viewport uncovered:
   * whatever point of the viewport the pointer is at, exactly one cell is
   * targeted, the one at (floor(x / w), floor(y / h)).
   */
  lemma ViewportCovered(cells: seq<Cell>, vp: Viewport, cols: nat, rows: nat, w: int, h: int, x: int, y: int)
    requires w > 0 && h > 0
    requires cols == CeilDiv(ViewportWidth(vp), w) + 2 && rows == CeilDiv(ViewportHeight(vp), h) + 2
    requires LaidOut(cells, cols, rows, w, h)
    requires 0 <= x < ViewportWidth(vp) && 0 <= y < ViewportHeight(vp)
    ensures Target(cells, x / w, y / h) == {(y / h) * cols + x / w}
  {
    var cw, ch := CeilDiv(ViewportWidth(vp), w), CeilDiv(ViewportHeight(vp), h);
    CeilDivCovers(ViewportWidth(vp), w);
    CeilDivCovers(ViewportHeight(vp), h);
    assert x < cw * w && y < ch * h;
    QuotientBelow(x, w, cw);
    QuotientBelow(y, h, ch);
    assert 0 <= x / w < cols && 0 <= y / h < rows;
    PointerTarget(cells, cols, rows, w, h, x, y);
  }

  /** A touch point as the touchmove event reports it. */
  datatype Touch = Touch(clientX: int, clientY: int)

  /**
   * The grid controller. `active` models activeCells as indices into `cells`;
   * `cols` and `rows` are the local counts of the last createGrid.
   */
  class Grid {
    var cellWidth: nat
    var cellHeight: nat
    var hasContainer: bool
    var cells: seq<Cell>
    var active: set<nat>
    ghost var cols: nat
    ghost var rows: nat

    /**
     * The cells form a laid-out grid, a cell is flipped exactly when it is in
     * the active set, and at most one cell is active.
     */
    ghost predicate Valid()
      reads this
    {
      cellWidth > 0 && cellHeight > 0 &&
      LaidOut(cells, cols, rows, cellWidth, cellHeight) &&
      FlagsMatch(cells, active) &&
      |active| <= 1
    }

    /** init: the initial module state followed by createGrid. */
    constructor (vp: Viewport)
      ensures Valid() && hasContainer && active == {}
      ensures cellWidth == GridSize(vp.innerWidth).width && cellHeight == GridSize(vp.innerWidth).height
      ensures cols == CeilDiv(ViewportWidth(vp), cellWidth) + 2
      ensures rows == CeilDiv(ViewportHeight(vp), cellHeight) + 2
      ensures cells == Layout(cols, rows, cellWidth, cellHeight)
    {
      cellWidth, cellHeight := 80, 53;
      hasContainer := false;
      cells, active := [], {};
      cols, rows := 0, 0;
      new;
      CreateGrid(vp);
      assert cells == Layout(cols, rows, cellWidth, cellHeight);
      LayoutLaidOut(cols, rows, cellWidth, cellHeight);
    }

    /**
     * createGrid: pick the cell size, make a container, and append one cell per
     * (col, row) of a grid two cells larger than the viewport in each
     * direction, row by row.
     */
    method CreateGrid(vp: Viewport)
      modifies this
      ensures cellWidth == GridSize(vp.innerWidth).width && cellHeight == GridSize(vp.innerWidth).height
      ensures cols == CeilDiv(ViewportWidth(vp), cellWidth) + 2
      ensures rows == CeilDiv(ViewportHeight(vp), cellHeight) + 2
      ensures cells == old(cells) + Layout(cols, rows, cellWidth, cellHeight)
      ensures active == old(active) && hasContainer
    {
      var size := GridSize(vp.innerWidth);
      cellWidth, cellHeight := size.width, size.height;
      hasContainer := true;
      var numCols := CeilDiv(ViewportWidth(vp), cellWidth) + 2;
      var numRows := CeilDiv(ViewportHeight(vp), cellHeight) + 2;
      cols, rows := numCols, numRows;
      AppendCells(numCols, numRows);
    }

    /** The nested loops of createGrid: push the cells row by row. */
    method AppendCells(numCols: nat, numRows: nat)
      requires numCols > 0
      modifies this`cells
      ensures cells == old(cells) + Layout(numCols, numRows, cellWidth, cellHeight)
    {
      var w, h := cellWidth, cellHeight;
      ghost var n := 0;
      var row := 0;
      while row < numRows
        invariant 0 <= row <= numRows && n == row * numCols
        invariant cells == old(cells) + Prefix(numCols, n, w, h)
      {
        var col := 0;
        while col < numCols
          invariant 0 <= col <= numCols && n == row * numCols + col
          invariant cells == old(cells) + Prefix(numCols, n, w, h)
        {
          RowMajor(row, col, numCols);
          PrefixSnoc(numCols, n, w, h);
          cells := cells + [Cell(col, row, col * w, row * h, false)];
          n := n + 1;
          col := col + 1;
        }
        row := row + 1;
      }
    }

    /**
     * updateCellsUnderCursor(x, y): unflip every active cell other than the one
     * findCell returns for (floor(x / cellWidth), floor(y / cellHeight)), then
     * flip that one if it is not active yet.
     */
    method UpdateCellsUnderCursor(x: int, y: int)
      requires Valid()
      modifies this
      ensures Valid()
      ensures cellWidth == old(cellWidth) && cellHeight == old(cellHeight)
      ensures cols == old(cols) && rows == old(rows) && hasContainer == old(hasContainer)
      ensures active == Target(old(cells), x / cellWidth, y / cellHeight)
      ensures Reflagged(old(cells), cells, active)
      ensures forall i :: 0 <= i < |cells| && i !in old(active) && i !in active ==> cells[i] == old(cells)[i]
    {
      var col := x / cellWidth;
      var row := y / cellHeight;
      var under := FindCell(cells, col, row);
      UnflipActiveExcept(under);
      if under.Some? && under.value !in active {
        ReflaggedFlip(old(cells), cells, active, under.value);
        cells := cells[under.value := cells[under.value].(flipped := true)];
        active := active + {under.value};
      }
      ReflaggedLaidOut(old(cells), cells, active, cols, rows, cellWidth, cellHeight);
    }

    /**
     * The forEach of updateCellsUnderCursor: unflip and drop every active cell
     * other than `keep`.
     */
    method UnflipActiveExcept(keep: Option<nat>)
      requires FlagsMatch(cells, active)
      modifies this`cells, this`active
      ensures active == old(active) * Members(keep)
      ensures Reflagged(old(cells), cells, active)
    {
      var pending := active;
      while pending != {}
        invariant pending <= old(active)
        invariant active == pending + old(active) * Members(keep)
        invariant Reflagged(old(cells), cells, active)
        decreases pending
      {
        var c :| c in pending;
        if keep != Some(c) {
          cells := cells[c := cells[c].(flipped := false)];
          active := active - {c};
        }
        pending := pending - {c};
      }
    }

    /** handleTouchMove: the first touch point, if any, moves the pointer. */
    method HandleTouchMove(touches: seq<Touch>)
      requires Valid()
      modifies this
      ensures Valid()
      ensures |touches| == 0 ==> unchanged(this)
      ensures |touches| > 0 ==>
        active == Target(old(cells), touches[0].clientX / cellWidth, touches[0].clientY / cellHeight) &&
        |cells| == |old(cells)| &&
        forall i :: 0 <= i < |cells| ==> cells[i] == old(cells)[i].(flipped := i in active)
      ensures cellWidth == old(cellWidth) && cellHeight == old(cellHeight)
      ensures cols == old(cols) && rows == old(rows) && hasContainer == old(hasContainer)
    {
      if |touches| > 0 {
        var touch := touches[0];
        UpdateCellsUnderCursor(touch.clientX, touch.clientY);
      }
    }

    /** handleMouseLeave: unflip every active cell and clear the active set. */
    method HandleMouseLeave()
      requires Valid()
      modifies this
      ensures Valid() && active == {}
      ensures cellWidth == old(cellWidth) && cellHeight == old(cellHeight)
      ensures cols == old(cols) && rows == old(rows) && hasContainer == old(hasContainer)
      ensures |cells| == |old(cells)|
      ensures forall i :: 0 <= i < |cells| ==> cells[i] == old(cells)[i].(flipped := false)
    {
      var pending := active;
      while pending != {}
        invariant pending <= active
        invariant cellWidth == old(cellWidth) && cellHeight == old(cellHeight)
        invariant cols == old(cols) && rows == old(rows) && hasContainer == old(hasContainer)
        invariant active == old(active)
        invariant |cells| == |old(cells)|
        invariant forall i :: 0 <= i < |cells| ==> cells[i] == old(cells)[i].(flipped := i in pending)
        decreases pending
      {
        var c :| c in pending;
        cells := cells[c := cells[c].(flipped := false)];
        pending := pending - {c};
      }
      active := {};
    }

    /**
     * handleResize: when a container exists, drop it with all cells and the
     * active set, and build the grid afresh for the new viewport.
     */
    method HandleResize(vp: Viewport)
      requires Valid()
      modifies this
      ensures Valid()
      ensures !old(hasContainer) ==> unchanged(this)
      ensures old(hasContainer) ==>
        hasContainer && active == {} &&
        cellWidth == GridSize(vp.innerWidth).width && cellHeight == GridSize(vp.innerWidth).height &&
        cols == CeilDiv(ViewportWidth(vp), cellWidth) + 2 &&
        rows == CeilDiv(ViewportHeight(vp), cellHeight) + 2 &&
        cells == Layout(cols, rows, cellWidth, cellHeight) &&
        |cells| == cols * rows &&
        forall i :: 0 <= i < |cells| ==> !cells[i].flipped
    {
      if hasContainer {
        hasContainer := false;
        cells := [];
        active := {};
        CreateGrid(vp);
        assert cells == Layout(cols, rows, cellWidth, cellHeight);
        LayoutLaidOut(cols, rows, cellWidth, cellHeight);
      }
    }
  }

  /**
   * A 1024 by 768 viewport gets 15 by 17 large cells; the pointer at
   * (100, 100) flips cell (1, 1), and moving it to (5, 5) flips cell (0, 0)
   * and unflips (1, 1).
   */
  method PointerScenario()
  {
    var grid := new Grid(Viewport(1024, 768, 1024, 768));
    assert grid.cellWidth == 80 && grid.cellHeight == 53;
    assert grid.cols == 15 && grid.rows == 17;
    assert |grid.cells| == 255;
    PointerTarget(grid.cells, grid.cols, grid.rows, 80, 53, 100, 100);
    grid.UpdateCellsUnderCursor(100, 100);
    assert grid.active == {16};
    PointerTarget(grid.cells, grid.cols, grid.rows, 80, 53, 5, 5);
    grid.UpdateCellsUnderCursor(5, 5);
    assert grid.active == {0};
    assert grid.cells[0].flipped && !grid.cells[16].flipped;
  }
}
