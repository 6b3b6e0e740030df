/** AMReX's `RealVect` in three dimensions, and a cell index triple. */
module Vectors {

  datatype Vec3 = Vec3(x: real, y: real, z: real) {

    function Add(o: Vec3): Vec3 {
      Vec3(x + o.x, y + o.y, z + o.z)
    }

    function Sub(o: Vec3): Vec3 {
      Vec3(x - o.x, y - o.y, z - o.z)
    }

    /** `v * s` and `s * v` */
    function Scale(s: real): Vec3 {
      Vec3(s * x, s * y, s * z)
    }

    /** `RealVect::crossProduct` */
    function Cross(o: Vec3): Vec3 {
      Vec3(y * o.z - z * o.y, z * o.x - x * o.z, x * o.y - y * o.x)
    }

    function Dot(o: Vec3): real {
      x * o.x + y * o.y + z * o.z
    }

    /** component `c` (0, 1 or 2) */
    function At(c: int): real
      requires 0 <= c < 3
    {
      if c == 0 then x else if c == 1 then y else z
    }
  }

  const Zero := Vec3(0.0, 0.0, 0.0)

  /** an integer cell (or stencil offset) index (i, j, k) */
  datatype Cell = Cell(i: int, j: int, k: int)
}
