/** Three-component vectors and axis-aligned boxes, the parts of three.js's
    `Vector3` and `Box3` that the grid and the entity use. */
module Geometry {

  datatype Vec3 = Vec3(x: real, y: real, z: real) {

    /** Componentwise difference `this - p` (the value `Vector3.sub` leaves in its receiver). */
    function Sub(p: Vec3): (r: Vec3)
      ensures r.Add(p) == this
    {
      Vec3(x - p.x, y - p.y, z - p.z)
    }

    /** Componentwise sum `this + p` (the value `Vector3.add` leaves in its receiver). */
    function Add(p: Vec3): Vec3
    {
      Vec3(x + p.x, y + p.y, z + p.z)
    }
  }

  /** Adding `p` is undone by subtracting it again. */
  lemma SubUndoesAdd(v: Vec3, p: Vec3)
    ensures v.Add(p).Sub(p) == v
  {
  }

  /** An axis-aligned box given by its two corners. */
  datatype Box3 = Box3(min: Vec3, max: Vec3)

  /** The cube of edge `len` centred at `c`: on every axis the box runs from
      `center - len/2` to `center + len/2`. */
  function CubeAround(c: Vec3, len: real): (b: Box3)
    ensures b.max.x - b.min.x == len && b.max.y - b.min.y == len && b.max.z - b.min.z == len
    ensures (b.min.x + b.max.x) / 2.0 == c.x
    ensures (b.min.y + b.max.y) / 2.0 == c.y
    ensures (b.min.z + b.max.z) / 2.0 == c.z
    ensures len >= 0.0 <==> b.min.x <= b.max.x
    ensures len >= 0.0 <==> b.min.y <= b.max.y
    ensures len >= 0.0 <==> b.min.z <= b.max.z
  {
    Box3(Vec3(c.x - len / 2.0, c.y - len / 2.0, c.z - len / 2.0),
         Vec3(c.x + len / 2.0, c.y + len / 2.0, c.z + len / 2.0))
  }
}
