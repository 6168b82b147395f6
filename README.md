# Interactive grid and scroll reveal, modelled in Dafny

This project models the two visual-effect scripts of a static portfolio site
and proves what they promise.

- `grid.dfy`, module `GridInteractive`, models `assets/js/grid-interactive.js`.
  The script lays a grid of cells over the viewport and gives the `flipped`
  class to the one cell under the pointer. Its module-level state is the
  class `Grid`:
  - `cellWidth` and `cellHeight` stand for `GRID_WIDTH` and `GRID_HEIGHT`.
  - `hasContainer` says whether `gridContainer` is set.
  - `cells` is the flat list of cells.
  - `active` is `activeCells`, held as indices into `cells`.
  - The ghost fields `cols` and `rows` record the counts of the last
    `createGrid`, which the script only keeps in local constants.

  A cell is a record of its column, row, pixel offsets and `flipped` class.
  The object invariant `Grid.Valid` says three things. The cells form the
  row-major layout. A cell is flipped exactly when its index is in the active
  set. At most one cell is active.
- `scroll.dfy`, module `ScrollAnimations`, models
  `assets/js/scroll-animations.js`. The script gives the `scroll-animated`
  class, once, to each element of a fixed list that overlaps the viewport.
  The list is an array of `Element` records (offset, outer height, revealed
  flag). One pass is the method `AnimateOnScroll`, which takes the scroll
  position and the window height as integers. It is proved equal to the
  function `Pass`, and the reveal properties are lemmas about `Pass`.

Two details of the code shape the model:

- The breakpoint rule reads `window.innerWidth` alone (line 19). The counts of
  columns and rows use the larger of `clientWidth` and `innerWidth` (lines
  49-59). So a window whose `clientWidth` exceeds 736 while `innerWidth` does
  not still gets small cells. `GridSize` takes `innerWidth`, and
  `Grid.CreateGrid` takes both.
- The test in `isInViewport` is strict. An element of height 0 whose top lies
  strictly inside the viewport passes it, though it covers no pixel row
  (`EmptyElementInViewport`). The test agrees with "shares a pixel row with
  the viewport" only for positive heights (`InViewportIffOverlap`).

The method `PointerScenario` is a verified client. It builds the grid for a
1024 by 768 viewport (15 by 17 cells of 80 by 53 pixels), moves the pointer to
(100, 100) and then to (5, 5), and checks which cell is flipped after each
move.

## Model

| member | source | states |
|---|---|---|
| `GridInteractive.GridSize` | assets/js/grid-interactive.js:18-23 | Positive cell size. It is 40 by 27 exactly when `innerWidth` is at most 736, and 80 by 53 exactly when it is larger. |
| `GridInteractive.CeilDivCovers` | assets/js/grid-interactive.js:58-59 | `CeilDiv(a, b)` is the least number of b-pixel cells that covers a pixels: that many cover them, one fewer does not. |
| `GridInteractive.ViewportWidth` | assets/js/grid-interactive.js:49-52 | The width to cover is the larger of `clientWidth` and `innerWidth`: at least each of them, and equal to one of them. |
| `GridInteractive.ViewportHeight` | assets/js/grid-interactive.js:53-56 | The height to cover is the larger of `clientHeight` and `innerHeight`: at least each of them, and equal to one of them. |
| `GridInteractive.CeilDiv` | assets/js/grid-interactive.js:58-59 | `Math.ceil(a / b)` on naturals. It has no contract of its own. What it means is proved by `CeilDivCovers`. |
| `GridInteractive.Grid.CreateGrid` | assets/js/grid-interactive.js:37-75 | Sets the cell size by the breakpoint rule and sets `cols = ceil(vw / W) + 2` and `rows = ceil(vh / H) + 2`, with vw and vh the larger reported dimensions. Appends exactly the `cols * rows` cells of the row-major layout and leaves the active set alone. |
| `GridInteractive.Grid.AppendCells` | assets/js/grid-interactive.js:62-73 | The nested loops append exactly the row-major layout of `numCols * numRows` unflipped cells, in order. |
| `GridInteractive.CellAt` | assets/js/grid-interactive.js:62-71 | The cell the loop body makes at flat index i: column `i % cols`, row `i / cols`, offsets `(col * W, row * H)`, not flipped. It has no contract of its own. Its placement is proved by `LayoutRowMajor` and `CoordinatesUnique`. |
| `GridInteractive.Layout` | assets/js/grid-interactive.js:62-73 | The list the nested loops build has exactly `cols * rows` cells. Where each cell sits is proved by `LayoutRowMajor`. |
| `GridInteractive.LayoutRowMajor` | assets/js/grid-interactive.js:62-71 | Index `row * cols + col` of the layout exists and holds the unflipped cell `(col, row)` at offset `(col * W, row * H)`. |
| `GridInteractive.CoordinatesUnique` | assets/js/grid-interactive.js:62-71 | In a laid-out grid two cells with the same `(col, row)` are the same cell. |
| `GridInteractive.FindCell` | assets/js/grid-interactive.js:152-157 | Returns the index of a cell with the given coordinates such that no earlier cell has them. Returns none exactly when no cell has them. |
| `GridInteractive.FindCellLaidOut` | assets/js/grid-interactive.js:152-157 | On a laid-out grid, `findCell(col, row)` is index `row * cols + col` when `0 <= col < cols` and `0 <= row < rows`, and none otherwise, including for negative coordinates. |
| `GridInteractive.Target` | assets/js/grid-interactive.js:135-149 | The active set an update leaves holds at most one index, and that index is a cell with the searched coordinates. It is empty exactly when no cell has those coordinates. |
| `GridInteractive.PointerTarget` | assets/js/grid-interactive.js:129-135 | On a laid-out grid the pointer at (x, y) targets `{floor(y/H) * cols + floor(x/W)}` when that cell is in range, and nothing otherwise. Equivalently, it targets exactly the cells whose W by H rectangle contains (x, y). |
| `GridInteractive.ViewportCovered` | assets/js/grid-interactive.js:49-59 | With the counts `createGrid` computes, every pixel of the viewport targets exactly one cell. |
| `GridInteractive.Grid.constructor` | assets/js/grid-interactive.js:32-35 | `init` leaves a valid grid with a container and no active cell. Its cells are the layout for the viewport. |
| `GridInteractive.Grid.UpdateCellsUnderCursor` | assets/js/grid-interactive.js:129-150 | Keeps `Valid`, so at most one cell is active and flipped matches active. The new active set is the findCell result for `(floor(x/W), floor(y/H))`, or empty. Only flipped classes change, so the list's length, order and geometry stay. A cell neither active before nor after is untouched. |
| `GridInteractive.Grid.UnflipActiveExcept` | assets/js/grid-interactive.js:137-143 | The `forEach` keeps only the cell under the pointer in the active set. It unflips every other active cell and changes nothing else. |
| `GridInteractive.Grid.HandleTouchMove` | assets/js/grid-interactive.js:104-109 | With no touches nothing changes. Otherwise the result is that of an update at `touches[0]`. |
| `GridInteractive.Grid.HandleMouseLeave` | assets/js/grid-interactive.js:111-117 | Empties the active set and unflips every cell. The list keeps its length and geometry, and the layout and size are unchanged. |
| `GridInteractive.Grid.HandleResize` | assets/js/grid-interactive.js:119-127 | With a container, it drops the old cells and the active set and rebuilds the grid for the new viewport. The new cell size follows the breakpoint, `cols * rows` cells are made, and none is flipped. Without a container nothing changes. |
| `ScrollAnimations.IsInViewport` | assets/js/scroll-animations.js:15-22 | The element's bottom is strictly below the viewport's top and its top strictly above the viewport's bottom. It has no contract of its own. Its meaning is proved by `InViewportIffOverlap` and `EmptyElementInViewport`. |
| `ScrollAnimations.InViewportIffOverlap` | assets/js/scroll-animations.js:15-22 | For positive heights the test holds iff the element and the viewport share a pixel row. An element whose bottom touches the viewport's top, or whose top touches its bottom, fails the test. |
| `ScrollAnimations.EmptyElementInViewport` | assets/js/scroll-animations.js:15-22 | A zero-height element passes the test exactly when its top is strictly inside the viewport, although it shares no pixel row with it. |
| `ScrollAnimations.Reveal` | assets/js/scroll-animations.js:29-37 | One step of the `.each`. It keeps the element's offset and height, leaves a revealed element as it is, and the result is revealed iff the element was revealed or is in the viewport. |
| `ScrollAnimations.Pass` | assets/js/scroll-animations.js:25-39 | `animateOnScroll` as a function of the list: `Reveal` applied to each element in order. It has no contract of its own. Its properties are proved by `PassAt` and the lemmas below it. |
| `ScrollAnimations.PassAt` | assets/js/scroll-animations.js:26-38 | A pass keeps the list's length, and its k-th element is the k-th input element after the skip-or-reveal step. |
| `ScrollAnimations.PassKeepsGeometry` | assets/js/scroll-animations.js:26-38 | A pass changes only revealed flags. Each element keeps its place in the list, its offset and its height. |
| `ScrollAnimations.PassKeepsRevealed` | assets/js/scroll-animations.js:29-32 | An element already revealed comes out of a pass unchanged at any scroll position, so the flag never reverts. |
| `ScrollAnimations.PassRevealsVisible` | assets/js/scroll-animations.js:35-37 | After a pass an element is revealed iff it was revealed before or is in the viewport. Every element in view is revealed, and an unrevealed element out of view stays unrevealed. |
| `ScrollAnimations.PassIdempotent` | assets/js/scroll-animations.js:26-38 | A second pass with the same scroll position and window height changes nothing. |
| `ScrollAnimations.AnimateOnScroll` | assets/js/scroll-animations.js:25-39 | The loop over the fixed array leaves it equal to `Pass` of its old contents. So all the `Pass` lemmas hold of it, and the array keeps its length. |

## Left out

- DOM construction and styling are not modelled: `createElement`, `appendChild`, `remove`, the `style.left`/`style.top` strings and CSS classes other than the two flags. A cell's position is its integer offsets, and the container is the flag `hasContainer`.
- The `dataset.col`/`dataset.row` strings and their `parseInt` round trip are not modelled. A cell holds its integer coordinates directly.
- Event registration and readiness plumbing are not modelled: `DOMContentLoaded`/`readyState`, `setupEventListeners` and jQuery's `ready`. The handlers are methods that a caller invokes.
- `handleMouseMove` and its `requestAnimationFrame` throttle are not modelled, because they are scheduling. `handleMouseMove` only forwards `clientX`/`clientY` to `UpdateCellsUnderCursor`. The throttle processes the first `mousemove` captured while no frame was pending, not the latest one.
- The 50 ms `setTimeout` debounce of the scroll handler and the re-run on resize are not modelled, because they are timer and event wiring. Each trigger runs one `AnimateOnScroll` pass.
- The jQuery geometry calls `offset().top`, `outerHeight()`, `scrollTop()` and `height()` are foreign calls. Their results are integer inputs.
- The selector query that fixes the target list is not modelled. The list is the array passed to `AnimateOnScroll`.
- Floating point is not modelled. Pointer coordinates are integers and `Math.floor(x / W)` is integer division. For an integer W > 0, floor(x / W) equals floor(floor(x) / W), so a fractional `clientX` floored first gives the same cell. Fractional element offsets are not covered. `Math.ceil` of the floating-point quotient is taken to be exact.
- The `|| 0` fallbacks for missing or zero viewport dimensions are not modelled. The viewport dimensions are non-negative integers.
