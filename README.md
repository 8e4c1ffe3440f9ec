# Uniform cell lattice and entity cell lookup, modelled in Dafny

This project models the spatial-index core of a small three.js world (the
`grid.data_struct.js` and `entity.js` files of the repository):

- A **Cell** is a cube. Its box is computed once, from a centre and an edge
  length. It keeps a mutable list of member entities: `insert` appends, `remove`
  pops, `search` finds, and `update` forwards `update(dt)` to every member,
  stopping at the first call that throws.
- A **Grid** is built from a width and a cell size. It stores
  `noCells = floor(width / cellSize)` and the widened width `width + cellSize`.
  It fills an `(n+1) x (n+1) x (n+1)` nested array with three nested loops,
  where `cells[i][j][k]` is the cell `addCell(i - 1, j - 1, k - 1)` builds. That
  cell is centred at `origin - cellSize * index + (storedWidth - cellSize) / 2`
  on each axis.
- An **Entity** has a position and a velocity. On `update` it subtracts the grid
  centre from its position. It takes `Math.floor(rel) % world.width` on each
  axis, using JavaScript's truncating remainder. It then shifts its old
  `currentCell` into `previousCell`, and only after that reads
  `world.cells[x][y][z]` into `currentCell`. So the shift has happened even
  when that read throws.

Modules:

- `JsSemantics` (js_semantics.dfy) covers the JavaScript number and array
  behaviour the code relies on: floor, truncation, the `%` operator (its sign
  follows the dividend) and reading an array element by a number key.
  JavaScript numbers are modelled as exact reals. NaN is kept as a separate value, because
  `x % 0` produces it.
- `Geometry` (geometry.dfy) models `Vector3` subtraction and addition, and
  `Box3` as a pair of corners.
- `Lattice` (grid.data_struct.js) holds the `Cell` and `Grid` classes as
  imperative Dafny. `insert`, `remove` and `buildGrid` are methods with
  `modifies` clauses, and `Cell.update` is a loop. The centre formula and
  `find` are functions. Lemmas cover face adjacency and the distinctness of
  built cells.
- `Entities` (entity.js) holds the `Entity` class, the index computation, and
  the chained lookup with its three possible results. `cells[x][y][z]` can
  yield a cell. It yields `undefined` when only the innermost key is missing.
  It throws a TypeError when the outer or middle key is missing, because a
  property of `undefined` is then read.

Where the code and the design intent seem to differ, the model follows the code:

- `insert` does not de-duplicate.
- `remove` ignores its argument and drops the last member, because
  `Array.pop` takes no argument.
- The lookup formula `floor(rel) % storedWidth` is not the inverse of the
  build formula. `Entities.CentreOfBuiltCellIsOutsideLookup` shows this for a
  lattice with the parameters main.js gives its grid (width 256, cell size 256,
  origin 0). The centre of `cells[1][1][1]` is looked up at index 128, outside
  the lattice, when the grid centre is also taken to be that origin. Unlike
  `Entity.update`, main.js never performs this lookup itself.

## Model

| member | source | states |
|---|---|---|
| `Geometry.SubUndoesAdd` | grid.data_struct.js:99 | `Vector3.add` (`Vec3.Add`, which `Grid.AddCell` uses to place the cell at the origin plus its relative position) of a point is undone by subtracting that point |
| `Geometry.CubeAround` | grid.data_struct.js:21-31 | the box spans `length` on every axis and is centred on the cell centre; `min <= max` on an axis exactly when `length >= 0` |
| `Lattice.Cell.constructor` | grid.data_struct.js:13-31 | a new cell holds the given centre and length, its box is the cube of that edge around the centre, and its member list is empty |
| `Lattice.Cell.Insert` | grid.data_struct.js:50-52 | the entity is appended at the end and nothing else changes |
| `Lattice.InsertTwice` | grid.data_struct.js:50-52 | inserting the same entity twice adds two entries (no duplicate filtering) |
| `Lattice.Cell.Remove` | grid.data_struct.js:53-55 | the argument is ignored: the last member is dropped and the earlier ones stay in order; an empty list stays empty |
| `Lattice.InsertThenRemove` | grid.data_struct.js:50-55 | `remove` after `insert` restores the list, whichever entity `remove` is given |
| `Lattice.Find` | grid.data_struct.js:57 | `find(m => m === e)` returns `e` when `e` occurs in the list and `undefined` (None) otherwise |
| `Lattice.Cell.Search` | grid.data_struct.js:56-58 | search yields the entity exactly when it is a member, and None otherwise; it only reads the list |
| `Lattice.InsertThenSearch` | grid.data_struct.js:50-58 | after `insert(e)`, `search(e)` finds `e` |
| `Lattice.Cell.Update` | grid.data_struct.js:59-63 | one `update(dt)` call per member, in list order, with `dt` defaulting to 0.1, up to and including the first member whose update throws; it reports a throw exactly when some member's update throws, and otherwise every member is called; the member list is unchanged |
| `Lattice.Grid.constructor` | grid.data_struct.js:79-84 | `noCells == floor(width / cellSize)`, the stored width is `width + cellSize`, the origin is zero and there are no cells yet |
| `Lattice.Grid.AddCell` | grid.data_struct.js:86-111 | a new, empty cell of edge `cellSize` centred at `origin - cellSize * index + (storedWidth - cellSize) / 2` on each axis |
| `Lattice.CenterCoord` | grid.data_struct.js:93-97 | the centre formula: when the cell size is not zero, the index is recovered from the centre as `(origin + (storedWidth - cellSize) / 2 - centre) / cellSize` |
| `Lattice.CenterFromConfiguredWidth` | grid.data_struct.js:79-97 | with the stored width `width + cellSize`, the centre is `origin - cellSize * index + width / 2` |
| `Lattice.CenterStep` | grid.data_struct.js:93-97 | for `CenterCoord`: adding one to an index moves the centre by exactly `-cellSize` |
| `Lattice.CenterInjective` | grid.data_struct.js:93-97 | for `CenterCoord`: when the cell size is not zero, different indices give different centres |
| `Lattice.Grid.BuildGrid` | grid.data_struct.js:113-129 | `cells` becomes an `(n+1)^3` nested array (empty for negative n) with `cells[i][j][k] == addCell(i-1, j-1, k-1)`, every cell new and empty |
| `Lattice.AdjacentCellsShareFace` | grid.data_struct.js:113-129 | in a built lattice, `cells[i+1]`'s box ends where `cells[i]`'s begins on that axis, and the two boxes agree on the other two axes; likewise for j and k |
| `Lattice.CellsDistinct` | grid.data_struct.js:113-129 | in a built lattice with a non-zero cell size, distinct indices hold distinct cell objects |
| `JsSemantics.Trunc` | entity.js:56-58 | truncation toward zero, the integer quotient behind `%`: within 1 of `x` on the side of zero, and never larger than `x` in magnitude |
| `JsSemantics.JsRemainder` | entity.js:56-58 | `a % b` has the sign of `a`, magnitude below `abs(b)`, and differs from `a` by a whole multiple of `b` |
| `JsSemantics.RemainderOfWholeNumbers` | entity.js:56-58 | the remainder of two whole numbers is a whole number |
| `Entities.AxisIndex` | entity.js:56-58 | each index is NaN exactly when the stored width is zero; otherwise it has the sign of `floor(rel)`, magnitude below the width, and is congruent to `floor(rel)` |
| `Entities.AxisIndexIntegral` | entity.js:56-58 | with a whole-number stored width, every index is a whole number |
| `Entities.LookupInBuiltGrid` | entity.js:60 | the contract of `LookupCell`, the chained `cells[x][y][z]` that nests the JavaScript array read `Get` (an element for a whole, in-range key, `undefined` for any other key) three times: on a built lattice it yields a cell exactly when all three keys are whole numbers in `[0, n]`, and that cell is `cells[x][y][z]`; it throws exactly when the first or second key is outside |
| `Entities.RelativeLookupInBuiltGrid` | entity.js:54-60 | the contract of `CellAtRelative`, the lookup for a relative position: with a whole-number width, a cell is found exactly when `floor(rel) % width` is in `[0, n]` on all three axes |
| `Entities.Entity.constructor` | entity.js:22-32 | the velocity comes from the arguments (0 by default), the position is `(x0, y0, z0)`, and there is no current or previous cell |
| `Geometry.Vec3.Sub` | entity.js:47-51 | the difference, plus the subtracted point, gives back the original vector |
| `Entities.Entity.GetRelativePositionFromPoint` | entity.js:47-51 | the entity's own position is overwritten with `position - point`, and that is returned |
| `Entities.Entity.Update` | entity.js:53-68 | the position becomes `position - centre`; `previousCell` is the old `currentCell`; `currentCell` is the looked-up cell, null for `undefined`, or unchanged when the lookup throws; a TypeError occurs exactly when the lookup throws, or when a cell is found and there was no previous cell |
| `Entities.ZeroWidthLookupThrows` | entity.js:56-60 | with a stored width of 0 (`x % 0` is NaN on every axis) the lookup throws for every position and every lattice |
| `Entities.CentreOfBuiltCellIsOutsideLookup` | entity.js:56-60 | in a lattice laid with main.js's grid parameters (width 256, cell size 256, origin 0), and with the grid centre taken as that origin, the centre (128, 128, 128) of `cells[1][1][1]` gets index 128 on every axis, so the lookup throws: it is not the inverse of the build formula |
| `Entities.MainScenario` | main.js:18-27 | main.js's grid (width 256, cell size 256) built, with the `Legoman` at (64, 26, 0) treated as an entity built with `(grid, 64, 26, 0)`, with the grid centre (0, 0, 0) that `new THREE.Vector3` makes of the missing `xgrid/ygrid/zgrid` (also the grid origin): a first `update`, which main.js itself never calls, throws a TypeError because `cells[64]` is `undefined` |

## Left out

- Meshes, materials and scene insertion (grid.data_struct.js:33-47, `initRenderGrid` at :131-153; the Entity's `scene` parameter and `this.scene.add(this.group)` at entity.js:29 and :31) and the colour changes of entity.js:62-68 are presentation. Only the TypeError that line 63 raises is modelled; the colours are not.
- main.js is context only: the renderer, camera, key listeners and animation loop. The `Math.sin`/`Math.cos`/`Math.sqrt` steering uses floating point. It calls `checkNeighboringCells` and `updateCells`, and the classes Baseplate, Legoman and SkyBox, none of which are in the files modelled. `Entities.MainScenario` uses only its grid and entity set-up.
- `getDistanceFromEntity` and `getDistanceFromPoint` (entity.js:34-45) use a floating-point square root (`Vector3.length`).
- `Box3.setFromObject` (entity.js:28) is a library call on an empty group. The entity's box is not modelled.
- `TestCube` (entity.js:72-76) uses `this` before `super` and cannot run.
- Gravity (`gforce` is stored but never read), collision response and multi-cell membership are not implemented in grid.data_struct.js and entity.js, so they are not modelled.
- As written, entity.js:54 reads the identifier `world`, which entity.js never declares, so in a module `update` throws a ReferenceError there before line 55. Even if `world` were the grid, `Grid` has no fields `xgrid/ygrid/zgrid`. The three.js `Vector3` constructor turns each missing coordinate into 0, so the centre would be (0, 0, 0), which is also the grid's own origin (grid.data_struct.js:74-76). Entities.Entity.Update takes the grid centre as a parameter, and calling it with `gridCenter = (0, 0, 0)` models that case, as `Entities.MainScenario` does. `world.width` and `world.cells` are read through the entity's own `world` field, as on lines 56-60.
- Lattice.Cell.Update: it returns the ordered list of `update(dt)` calls it issues. It does not run them. Running them would need dynamic dispatch from the cell to its members. One such call is `Entities.Entity.Update`. Whether a member's update throws is given as the predicate `throws` on members, so the state that decides it (for an entity, whether `previousCell` is still null and what the lookup finds) is not tracked.
- Lattice.Grid.constructor: requires a non-zero cell size. With a zero cell size, JavaScript divides by zero (Infinity or NaN), and with positive width `buildGrid` would then never end. Infinity is not part of the model.
- JavaScript numbers are modelled as exact reals. Rounding is not modelled. NaN appears only as the result of `% 0`, and `-0` is equal to `0`.
- Geometric fields of `Cell` (centre, length and box) and the configuration of `Grid` are set once in the constructors. `addCell` re-assigns `length` with the value it already has, and `scene` is presentation.
- Entities.Entity.GetRelativePositionFromPoint: three.js returns the receiver vector itself. The model returns an equal value and does not capture the aliasing.
- Entities.Entity.Update: an exception leaves the call at the point the TypeError is raised. The model states the fields as they are at that point. It does not model how the exception propagates to callers.
