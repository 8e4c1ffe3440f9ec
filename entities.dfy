/** The entity of entity.js: a body with a position and a velocity that, on
    `update`, turns its position relative to the grid centre into three cell indices
    (`Math.floor(rel) % world.width` on each axis), looks up
    `world.cells[x][y][z]`, and shifts the cell it held into `previousCell`. */
module Entities {
  import opened JsSemantics
  import opened Geometry
  import opened Lattice

  /** What `cells[x][y][z]` evaluates to in JavaScript: a cell, `undefined` (only
      the innermost key is missing), or a TypeError (the outer or the middle key is
      missing, so a property of `undefined` is read). */
  datatype Lookup<T> = Found(cell: T) | Undefined | Threw

  /** How a call of `update` ends. */
  datatype Outcome = Completed | TypeError

  /** The index entity.js computes on one axis, `Math.floor(rel) % width`, with the
      sign of `Math.floor(rel)`, a magnitude below `|width|`, a whole multiple of
      `width` away from `Math.floor(rel)`, and NaN exactly when `width` is zero. */
  function AxisIndex(rel: real, width: real): (ix: Index)
    ensures ix.NaN? <==> width == 0.0
    ensures ix.Finite? && rel.Floor >= 0 ==> 0.0 <= ix.v < Abs(width)
    ensures ix.Finite? && rel.Floor <= 0 ==> -Abs(width) < ix.v <= 0.0
    ensures ix.Finite? ==> Integral((rel.Floor as real - ix.v) / width)
  {
    if width == 0.0 then NaN else Finite(JsRemainder(rel.Floor as real, width))
  }

  /** With a whole-number width, as the grid of main.js has, every index is a whole
      number, so only its range decides whether the lookup finds a cell. */
  lemma AxisIndexIntegral(rel: real, width: real)
    requires width != 0.0 && Integral(width)
    ensures AxisIndex(rel, width).Finite? && Integral(AxisIndex(rel, width).v)
  {
    RemainderOfWholeNumbers(rel.Floor as real, width);
  }

  /** JavaScript's `cells[x][y][z]`. */
  function LookupCell<T>(cells: seq<seq<seq<T>>>, x: Index, y: Index, z: Index): Lookup<T> {
    match Get(cells, x)
    case None => Threw
    case Some(plane) =>
      match Get(plane, y)
      case None => Threw
      case Some(row) =>
        match Get(row, z)
        case None => Undefined
        case Some(cell) => Found(cell)
  }

  /** The cell lookup `update` performs for the relative position `rel`. */
  function CellAtRelative<T>(cells: seq<seq<seq<T>>>, rel: Vec3, width: real): Lookup<T> {
    LookupCell(cells, AxisIndex(rel.x, width), AxisIndex(rel.y, width), AxisIndex(rel.z, width))
  }

  /** A grid whose stored width `width + cellSize` is zero (a width of `-cellSize`)
      makes every index `Math.floor(rel) % 0`, which is NaN; `cells[NaN]` is
      `undefined`, so the lookup throws for every position and every lattice. */
  lemma ZeroWidthLookupThrows<T>(cells: seq<seq<seq<T>>>, rel: Vec3)
    ensures CellAtRelative(cells, rel, 0.0) == Threw
  {
  }

  /** `ix` is an array key within the lattice `0 ..= n`. */
  predicate LatticeIndex(ix: Index, n: int) {
    ix.Finite? && Integral(ix.v) && 0 <= ix.v.Floor <= n
  }

  /** On a lattice `buildGrid` has laid, the lookup yields a cell exactly when all
      three keys are whole numbers in `[0, n]`, and then the cell at those indices; it
      throws exactly when the first or the second key is outside; otherwise (only the
      third key outside) it yields `undefined`. */
  lemma {:induction false} LookupInBuiltGrid<E>(cells: seq<seq<seq<Cell<E>>>>, n: int, origin: Vec3,
                                               cellSize: real, width: real, x: Index, y: Index, z: Index)
    requires Laid(cells, n, origin, cellSize, width)
    ensures LookupCell(cells, x, y, z).Found? <==> LatticeIndex(x, n) && LatticeIndex(y, n) && LatticeIndex(z, n)
    ensures LookupCell(cells, x, y, z).Threw? <==> !LatticeIndex(x, n) || !LatticeIndex(y, n)
    ensures LookupCell(cells, x, y, z).Found? ==>
      LookupCell(cells, x, y, z).cell == cells[x.v.Floor][y.v.Floor][z.v.Floor]
  {
    if LatticeIndex(x, n) {
      var plane := cells[x.v.Floor];
      assert PlaneLaid(plane, n, origin, cellSize, width, x.v.Floor);
      if LatticeIndex(y, n) {
        assert RowLaid(plane[y.v.Floor], n, origin, cellSize, width, x.v.Floor, y.v.Floor);
      }
    }
  }

  /** The lookup `update` performs, on a built lattice whose stored width `width`
      is a whole number: a cell is found exactly when `Math.floor(rel) % width` lies
      in `[0, n]` on all three axes, and it is the cell at those indices. */
  lemma {:induction false} RelativeLookupInBuiltGrid<E>(cells: seq<seq<seq<Cell<E>>>>, n: int, origin: Vec3,
                                                       cellSize: real, width: real, rel: Vec3)
    requires Laid(cells, n, origin, cellSize, width)
    requires width != 0.0 && Integral(width)
    ensures var x, y, z := JsRemainder(rel.x.Floor as real, width), JsRemainder(rel.y.Floor as real, width),
                           JsRemainder(rel.z.Floor as real, width);
      && (CellAtRelative(cells, rel, width).Found? <==>
            0.0 <= x <= n as real && 0.0 <= y <= n as real && 0.0 <= z <= n as real)
      && (CellAtRelative(cells, rel, width).Found? ==>
            CellAtRelative(cells, rel, width).cell == cells[x.Floor][y.Floor][z.Floor])
  {
    AxisIndexIntegral(rel.x, width);
    AxisIndexIntegral(rel.y, width);
    AxisIndexIntegral(rel.z, width);
    LookupInBuiltGrid(cells, n, origin, cellSize, width,
                      AxisIndex(rel.x, width), AxisIndex(rel.y, width), AxisIndex(rel.z, width));
  }

  class Entity {
    /** The grid the entity is indexed in. */
    const world: Grid<Entity>
    /** Never read in entity.js (no gravity is integrated). */
    const gforce: real
    var vx: real
    var vy: real
    var vz: real
    /** The position of the entity's group. */
    var position: Vec3
    var currentCell: Cell?<Entity>
    var previousCell: Cell?<Entity>

    /** Velocity from the arguments (0 when omitted), the group placed at
        `(x0, y0, z0)`, and no current or previous cell yet. */
    constructor (world: Grid<Entity>, x0: real, y0: real, z0: real, vx: real := 0.0, vy: real := 0.0, vz: real := 0.0)
      ensures this.world == world && gforce == 0.01
      ensures this.vx == vx && this.vy == vy && this.vz == vz
      ensures position == Vec3(x0, y0, z0)
      ensures currentCell == null && previousCell == null
    {
      this.world := world;
      gforce := 0.01;
      this.vx, this.vy, this.vz := vx, vy, vz;
      position := Vec3(x0, y0, z0);
      currentCell, previousCell := null, null;
    }

    /** `position.sub(point)`: three.js subtracts in place, so the entity's own
        position becomes the difference, which is also what is returned. */
    method GetRelativePositionFromPoint(point: Vec3) returns (r: Vec3)
      modifies this`position
      ensures position == old(position).Sub(point) && r == position
      ensures position.Add(point) == old(position)
    {
      position := position.Sub(point);
      r := position;
    }

    /** entity.js `update`, with the grid centre it reads passed in. The position is
        replaced by the relative position (as GetRelativePositionFromPoint does),
        `previousCell` takes the old `currentCell`, and `currentCell` takes the
        looked-up cell, or null for `undefined`; when the lookup throws, the
        TypeError leaves `currentCell` as it was. A found cell with no previous cell
        also ends in a TypeError, raised when the colour of the missing previous
        cell's mesh is set. `dt` is not used. */
    method Update(gridCenter: Vec3, dt: real := 0.01) returns (outcome: Outcome)
      modifies this`position, this`previousCell, this`currentCell
      ensures position == old(position).Sub(gridCenter)
      ensures previousCell == old(currentCell)
      ensures outcome == TypeError <==>
        CellAtRelative(world.cells, position, world.width).Threw? ||
        (CellAtRelative(world.cells, position, world.width).Found? && old(currentCell) == null)
      ensures currentCell == match CellAtRelative(world.cells, position, world.width)
                             case Found(cell) => cell
                             case Undefined => null
                             case Threw => old(currentCell)
    {
      var relativePosition := GetRelativePositionFromPoint(gridCenter);
      var cellX := AxisIndex(relativePosition.x, world.width);
      var cellY := AxisIndex(relativePosition.y, world.width);
      var cellZ := AxisIndex(relativePosition.z, world.width);
      previousCell := currentCell;
      match LookupCell(world.cells, cellX, cellY, cellZ)
      case Threw =>
        outcome := TypeError;
      case Undefined =>
        currentCell := null;
        outcome := Completed;
      case Found(cell) =>
        currentCell := cell;
        // `this.previousCell.cellMesh` is read whenever a cell was found
        outcome := if previousCell == null then TypeError else Completed;
    }
  }

  /** The centre of a built cell is not mapped back to that cell's indices: in the
      lattice main.js builds (width 256 and cell size 256, so noCells 1 and stored
      width 512), `cells[1][1][1]` is centred at (128, 128, 128), whose index is 128
      on every axis, outside `[0, 1]`, so the lookup throws. */
  lemma CentreOfBuiltCellIsOutsideLookup<E>(cells: seq<seq<seq<Cell<E>>>>)
    requires Laid(cells, 1, Vec3(0.0, 0.0, 0.0), 256.0, 512.0)
    ensures cells[1][1][1].Center() == Vec3(128.0, 128.0, 128.0)
    ensures AxisIndex(128.0, 512.0) == Finite(128.0)
    ensures CellAtRelative(cells, cells[1][1][1].Center(), 512.0) == Threw
  {
    assert PlaneLaid(cells[1], 1, Vec3(0.0, 0.0, 0.0), 256.0, 512.0, 1);
    assert RowLaid(cells[1][1], 1, Vec3(0.0, 0.0, 0.0), 256.0, 512.0, 1, 1);
    assert Placed(cells[1][1][1], Vec3(0.0, 0.0, 0.0), 256.0, 512.0, 0, 0, 0);
    assert Trunc(128.0 / 512.0) == 0;
  }

  /** The grid set-up of main.js (width 256, cell size 256, built) with an entity
      at (64, 26, 0). main.js builds a `Legoman` there, which is taken here as a plain
      entity, and never calls `update` itself. The grid centre is (0, 0, 0): that is
      what `new THREE.Vector3` makes of the missing `xgrid/ygrid/zgrid`, and it is
      also the grid origin. Under those choices the first update computes the indices
      (64, 26, 0), and `cells[64]` is `undefined`, so the update throws a TypeError. */
  method MainScenario() returns (outcome: Outcome)
    ensures outcome == TypeError
  {
    var grid := new Grid<Entity>(256.0, 256.0);
    assert grid.noCells == 1;
    grid.BuildGrid();
    var legoman := new Entity(grid, 64.0, 26.0, 0.0);
    LookupInBuiltGrid(grid.cells, 1, grid.Origin(), 256.0, 512.0,
                      AxisIndex(64.0, 512.0), AxisIndex(26.0, 512.0), AxisIndex(0.0, 512.0));
    assert Trunc(64.0 / 512.0) == 0;
    outcome := legoman.Update(Vec3(0.0, 0.0, 0.0));
  }
}
