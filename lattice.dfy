/** The uniform cell lattice of grid.data_struct.js: a `Cell` is a cube with a
    mutable list of member entities, and a `Grid` builds an (n+1) x (n+1) x (n+1)
    nested array of cells whose centres follow one closed-form formula. The member
    type `E` stands for the entity objects the cells refer to; they are compared by
    identity, as JavaScript's `===` does for objects. */
module Lattice {
  import opened JsSemantics
  import opened Geometry

  /** One call `target.update(dt)` issued by `Cell.update`. */
  datatype Dispatch<E> = Dispatch(target: E, dt: real)

  /** `Array.prototype.find` with the predicate `m === e`: the first member equal to
      `e`, or `undefined` (None) when there is none. */
  function Find<E(==)>(s: seq<E>, e: E): (r: Option<E>)
    ensures r == (if e in s then Some(e) else None)
  {
    if s == [] then None
    else if s[0] == e then Some(s[0])
    else Find(s[1..], e)
  }

  class Cell<E(==)> {
    /** The entities registered in this cell, in insertion order; duplicates allowed. */
    var entities: seq<E>
    // The centre, the edge length and the box are fixed once the constructor runs
    // (Grid.addCell re-assigns `length` with the value it already holds).
    const xcenter: real
    const ycenter: real
    const zcenter: real
    const length: real
    const bbox: Box3

    function Center(): Vec3 {
      Vec3(xcenter, ycenter, zcenter)
    }

    /** A new, empty cell whose box is the cube of edge `length` around the centre. */
    constructor (xcenter: real, ycenter: real, zcenter: real, length: real)
      ensures this.xcenter == xcenter && this.ycenter == ycenter && this.zcenter == zcenter
      ensures this.length == length
      ensures bbox == CubeAround(Vec3(xcenter, ycenter, zcenter), length)
      ensures entities == []
    {
      this.xcenter := xcenter;
      this.ycenter := ycenter;
      this.zcenter := zcenter;
      this.length := length;
      bbox := CubeAround(Vec3(xcenter, ycenter, zcenter), length);
      entities := [];
    }

    /** `entities.push(entity)`: appends, with no check for an existing entry. */
    method Insert(entity: E)
      modifies this
      ensures entities == old(entities) + [entity]
    {
      entities := entities + [entity];
    }

    /** `entities.pop(entity)`: `pop` takes no argument, so the last member is
        dropped whatever `entity` is; an empty list stays empty. */
    method Remove(entity: E)
      modifies this
      ensures old(entities) == [] ==> entities == []
      ensures old(entities) != [] ==>
        |entities| == |old(entities)| - 1 && entities == old(entities)[..|entities|]
    {
      if entities != [] {
        entities := entities[..|entities| - 1];
      }
    }

    /** `entities.find(m => m === entity)`: the entity itself when it is a member,
        `undefined` otherwise; the list is only read. */
    function Search(entity: E): (r: Option<E>)
      reads this
      ensures r.Some? <==> entity in entities
      ensures r.Some? ==> r.value == entity
    {
      Find(entities, entity)
    }

    /** `entities.forEach(e => e.update(dt))`: one `update(dt)` per member, in list
        order (a member listed twice is updated twice); `dt` defaults to 0.1.
        `forEach` stops at the first member whose `update` throws: `throws` tells
        which members' updates throw, and `threw` says whether one did. The calls
        issued are then those up to and including that member. */
    method Update(throws: E -> bool, dt: real := 0.1) returns (calls: seq<Dispatch<E>>, threw: bool)
      ensures |calls| <= |entities|
      ensures forall i | 0 <= i < |calls| :: calls[i] == Dispatch(entities[i], dt)
      ensures threw <==> exists i | 0 <= i < |entities| :: throws(entities[i])
      ensures !threw ==> |calls| == |entities|
      ensures threw ==> 0 < |calls| && throws(entities[|calls| - 1])
      ensures forall i | 0 <= i < |calls| - 1 :: !throws(entities[i])
    {
      calls := [];
      threw := false;
      var i := 0;
      while i < |entities| && !threw
        invariant 0 <= i <= |entities|
        invariant |calls| == i
        invariant forall m | 0 <= m < i :: calls[m] == Dispatch(entities[m], dt)
        invariant threw ==> 0 < i && throws(entities[i - 1])
        invariant forall m | 0 <= m < i - 1 :: !throws(entities[m])
        invariant !threw ==> forall m | 0 <= m < i :: !throws(entities[m])
      {
        calls := calls + [Dispatch(entities[i], dt)];
        threw := throws(entities[i]);
        i := i + 1;
      }
    }
  }

  /** The centre coordinate, on one axis, of the cell `addCell` builds for the
      index `index`: the grid origin plus `-cellSize * index + (width - cellSize) / 2`,
      where `width` is the width the grid stores. */
  function CenterCoord(origin: real, cellSize: real, width: real, index: int): (c: real)
    ensures cellSize != 0.0 ==> (origin + (width - cellSize) / 2.0 - c) / cellSize == index as real
  {
    var c := origin + (-cellSize * index as real + (width - cellSize) / 2.0);
    assert origin + (width - cellSize) / 2.0 - c == cellSize * index as real;
    assert cellSize != 0.0 ==> (cellSize * index as real) / cellSize == index as real;
    c
  }

  /** The number of entries per dimension that `buildGrid` produces for `noCells == n`:
      the loops run `0 <= i <= n`, so none at all when n is negative. */
  function Extent(n: int): nat {
    if n >= 0 then n + 1 else 0
  }

  /** `c` is the cell `addCell(i, j, k)` builds for the given grid parameters. */
  ghost predicate Placed<E>(c: Cell<E>, origin: Vec3, cellSize: real, width: real, i: int, j: int, k: int) {
    && c.xcenter == CenterCoord(origin.x, cellSize, width, i)
    && c.ycenter == CenterCoord(origin.y, cellSize, width, j)
    && c.zcenter == CenterCoord(origin.z, cellSize, width, k)
    && c.length == cellSize
    && c.bbox == CubeAround(c.Center(), cellSize)
  }

  /** A row `cells[i][j]` as `buildGrid` fills it. */
  ghost predicate RowLaid<E>(row: seq<Cell<E>>, n: int, origin: Vec3, cellSize: real, width: real, i: int, j: int) {
    && |row| == Extent(n)
    && forall k | 0 <= k < |row| :: Placed(row[k], origin, cellSize, width, i - 1, j - 1, k - 1)
  }

  /** A plane `cells[i]` as `buildGrid` fills it. */
  ghost predicate PlaneLaid<E>(plane: seq<seq<Cell<E>>>, n: int, origin: Vec3, cellSize: real, width: real, i: int) {
    && |plane| == Extent(n)
    && forall j | 0 <= j < |plane| :: RowLaid(plane[j], n, origin, cellSize, width, i, j)
  }

  /** The whole lattice as `buildGrid` leaves it: `cells[i][j][k]` is
      `addCell(i - 1, j - 1, k - 1)` for `0 <= i, j, k <= n`. */
  ghost predicate Laid<E>(cells: seq<seq<seq<Cell<E>>>>, n: int, origin: Vec3, cellSize: real, width: real) {
    && |cells| == Extent(n)
    && forall i | 0 <= i < |cells| :: PlaneLaid(cells[i], n, origin, cellSize, width, i)
  }

  /** With the stored width `width + cellSize` that the Grid constructor keeps, the
      centre formula of `addCell` is `origin - cellSize * index + width / 2`. */
  lemma CenterFromConfiguredWidth(origin: real, cellSize: real, width: real, index: int)
    ensures CenterCoord(origin, cellSize, width + cellSize, index)
         == origin - cellSize * index as real + width / 2.0
  {
  }

  /** Moving one index up moves the centre by exactly `-cellSize`. */
  lemma {:induction false} CenterStep(origin: real, cellSize: real, width: real, index: int)
    ensures CenterCoord(origin, cellSize, width, index + 1) == CenterCoord(origin, cellSize, width, index) - cellSize
  {
    assert (index + 1) as real == index as real + 1.0;
    assert cellSize * (index as real + 1.0) == cellSize * index as real + cellSize;
  }

  /** Different indices give different centres when the cell size is not zero. */
  lemma {:induction false} CenterInjective(origin: real, cellSize: real, width: real, i: int, i': int)
    requires cellSize != 0.0 && i != i'
    ensures CenterCoord(origin, cellSize, width, i) != CenterCoord(origin, cellSize, width, i')
  {
    assert (cellSize * i as real) / cellSize == i as real;
    assert (cellSize * i' as real) / cellSize == i' as real;
  }

  /** Neighbouring cells of a built lattice share a face: along each axis the next
      cell's box ends exactly where the current one begins, and the two boxes have
      the same extent on the other two axes. */
  lemma {:induction false} AdjacentCellsShareFace<E>(cells: seq<seq<seq<Cell<E>>>>, n: int, origin: Vec3,
                                                    cellSize: real, width: real, i: int, j: int, k: int)
    requires Laid(cells, n, origin, cellSize, width)
    requires 0 <= i <= n && 0 <= j <= n && 0 <= k <= n
    ensures i < n ==>
      var here, next := cells[i][j][k].bbox, cells[i + 1][j][k].bbox;
      && next.max.x == here.min.x
      && next.min.y == here.min.y && next.max.y == here.max.y
      && next.min.z == here.min.z && next.max.z == here.max.z
    ensures j < n ==>
      var here, next := cells[i][j][k].bbox, cells[i][j + 1][k].bbox;
      && next.max.y == here.min.y
      && next.min.x == here.min.x && next.max.x == here.max.x
      && next.min.z == here.min.z && next.max.z == here.max.z
    ensures k < n ==>
      var here, next := cells[i][j][k].bbox, cells[i][j][k + 1].bbox;
      && next.max.z == here.min.z
      && next.min.x == here.min.x && next.max.x == here.max.x
      && next.min.y == here.min.y && next.max.y == here.max.y
  {
    assert Placed(cells[i][j][k], origin, cellSize, width, i - 1, j - 1, k - 1);
    if i < n {
      assert Placed(cells[i + 1][j][k], origin, cellSize, width, i, j - 1, k - 1);
      CenterStep(origin.x, cellSize, width, i - 1);
    }
    if j < n {
      assert Placed(cells[i][j + 1][k], origin, cellSize, width, i - 1, j, k - 1);
      CenterStep(origin.y, cellSize, width, j - 1);
    }
    if k < n {
      assert Placed(cells[i][j][k + 1], origin, cellSize, width, i - 1, j - 1, k);
      CenterStep(origin.z, cellSize, width, k - 1);
    }
  }

  /** A built lattice holds a different cell object at every index (when the cell
      size is not zero), so inserting into one cell touches no other. */
  lemma {:induction false} CellsDistinct<E>(cells: seq<seq<seq<Cell<E>>>>, n: int, origin: Vec3,
                                           cellSize: real, width: real,
                                           i: int, j: int, k: int, i': int, j': int, k': int)
    requires Laid(cells, n, origin, cellSize, width) && cellSize != 0.0
    requires 0 <= i <= n && 0 <= j <= n && 0 <= k <= n
    requires 0 <= i' <= n && 0 <= j' <= n && 0 <= k' <= n
    requires (i, j, k) != (i', j', k')
    ensures cells[i][j][k] != cells[i'][j'][k']
  {
    assert Placed(cells[i][j][k], origin, cellSize, width, i - 1, j - 1, k - 1);
    assert Placed(cells[i'][j'][k'], origin, cellSize, width, i' - 1, j' - 1, k' - 1);
    if i != i' {
      CenterInjective(origin.x, cellSize, width, i - 1, i' - 1);
    } else if j != j' {
      CenterInjective(origin.y, cellSize, width, j - 1, j' - 1);
    } else {
      CenterInjective(origin.z, cellSize, width, k - 1, k' - 1);
    }
  }

  class Grid<E(==)> {
    /** The stored width: the width the constructor was given plus one cell size. */
    const width: real
    const noCells: int
    const cellSize: real
    const gridX: real
    const gridY: real
    const gridZ: real
    var cells: seq<seq<seq<Cell<E>>>>

    function Origin(): Vec3 {
      Vec3(gridX, gridY, gridZ)
    }

    /** `noCells = floor(width / cellSize)`, the stored width is `width + cellSize`,
        the origin is (0, 0, 0) and there are no cells until `BuildGrid`. */
    constructor (width: real, cellSize: real)
      requires cellSize != 0.0
      ensures this.cellSize == cellSize
      ensures noCells == (width / cellSize).Floor
      ensures this.width == width + cellSize
      ensures gridX == 0.0 && gridY == 0.0 && gridZ == 0.0
      ensures cells == []
    {
      this.cellSize := cellSize;
      noCells := (width / cellSize).Floor;
      this.width := width + cellSize;
      gridX, gridY, gridZ := 0.0, 0.0, 0.0;
      cells := [];
    }

    /** A new, empty cell of edge `cellSize` whose centre is
        `origin - cellSize * (i, j, k) + (width - cellSize) / 2` on every axis. */
    method AddCell(i: int, j: int, k: int) returns (cell: Cell<E>)
      ensures fresh(cell) && cell.entities == []
      ensures Placed(cell, Origin(), cellSize, width, i, j, k)
    {
      var gridVectorPosition := Origin();
      var cellRelativePosition := Vec3(-cellSize * i as real + (width - cellSize) / 2.0,
                                       -cellSize * j as real + (width - cellSize) / 2.0,
                                       -cellSize * k as real + (width - cellSize) / 2.0);
      var cellPosition := gridVectorPosition.Add(cellRelativePosition);
      cell := new Cell(cellPosition.x, cellPosition.y, cellPosition.z, cellSize);
    }

    /** Replaces `cells` with the (n+1)^3 lattice, `cells[i][j][k] ==
        addCell(i - 1, j - 1, k - 1)`, every cell new and empty. */
    method BuildGrid()
      modifies this
      ensures Laid(cells, noCells, Origin(), cellSize, width)
      ensures forall i, j, k | 0 <= i < |cells| && 0 <= j < |cells[i]| && 0 <= k < |cells[i][j]| ::
        fresh(cells[i][j][k]) && cells[i][j][k].entities == []
    {
      var n := noCells;
      var temp: seq<seq<seq<Cell<E>>>> := [];
      var i := 0;
      while i <= n
        invariant 0 <= i <= Extent(n)
        invariant |temp| == i
        invariant forall a | 0 <= a < i :: PlaneLaid(temp[a], n, Origin(), cellSize, width, a)
        invariant forall a, b, c | 0 <= a < |temp| && 0 <= b < |temp[a]| && 0 <= c < |temp[a][b]| ::
          fresh(temp[a][b][c]) && temp[a][b][c].entities == []
      {
        var line1: seq<seq<Cell<E>>> := [];
        var j := 0;
        while j <= n
          invariant 0 <= j <= Extent(n)
          invariant |line1| == j
          invariant forall b | 0 <= b < j :: RowLaid(line1[b], n, Origin(), cellSize, width, i, b)
          invariant forall b, c | 0 <= b < |line1| && 0 <= c < |line1[b]| ::
            fresh(line1[b][c]) && line1[b][c].entities == []
          invariant forall a, b, c | 0 <= a < |temp| && 0 <= b < |temp[a]| && 0 <= c < |temp[a][b]| ::
            fresh(temp[a][b][c]) && temp[a][b][c].entities == []
        {
          var line2: seq<Cell<E>> := [];
          var k := 0;
          while k <= n
            invariant 0 <= k <= Extent(n)
            invariant |line2| == k
            invariant forall c | 0 <= c < k :: Placed(line2[c], Origin(), cellSize, width, i - 1, j - 1, c - 1)
            invariant forall c | 0 <= c < |line2| :: fresh(line2[c]) && line2[c].entities == []
            invariant forall b, c | 0 <= b < |line1| && 0 <= c < |line1[b]| ::
              fresh(line1[b][c]) && line1[b][c].entities == []
            invariant forall a, b, c | 0 <= a < |temp| && 0 <= b < |temp[a]| && 0 <= c < |temp[a][b]| ::
              fresh(temp[a][b][c]) && temp[a][b][c].entities == []
          {
            var cell := AddCell(i - 1, j - 1, k - 1);
            line2 := line2 + [cell];
            k := k + 1;
          }
          line1 := line1 + [line2];
          j := j + 1;
        }
        temp := temp + [line1];
        i := i + 1;
      }
      cells := temp;
    }
  }

  // Consequences of the Cell operations for a caller.

  /** `insert` does not filter duplicates: inserting the same entity twice grows
      the list by two. */
  method InsertTwice<E(==)>(cell: Cell<E>, entity: E)
    modifies cell
    ensures cell.entities == old(cell.entities) + [entity, entity]
    ensures |cell.entities| == |old(cell.entities)| + 2
  {
    cell.Insert(entity);
    cell.Insert(entity);
  }

  /** `remove` undoes the last `insert`, whichever entity it is asked to remove. */
  method InsertThenRemove<E(==)>(cell: Cell<E>, inserted: E, removed: E)
    modifies cell
    ensures cell.entities == old(cell.entities)
  {
    cell.Insert(inserted);
    cell.Remove(removed);
  }

  /** After `insert(e)`, `search(e)` finds `e`. */
  method InsertThenSearch<E(==)>(cell: Cell<E>, entity: E) returns (found: Option<E>)
    modifies cell
    ensures cell.entities == old(cell.entities) + [entity]
    ensures found == Some(entity)
  {
    cell.Insert(entity);
    found := cell.Search(entity);
  }
}
