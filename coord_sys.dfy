/** The grid-metrics helper `CoordSys` (CoordSys.cpp): the physical location of cell
    centres, edges, faces and nodes of a uniform grid, the cell that contains a point,
    one-dimensional location arrays, RZ volume coordinates, and the volume and face areas
    of one cell.

    The C++ class keeps the coordinate kind `c_sys` and the origin `offset` as statics
    (CoordSys.cpp:20-21); here they are the fields of one explicit `CoordStatics` object
    that every `CoordSys` refers to. `BL_SPACEDIM` is the constant `spaceDim` of that
    object, 2 or 3. An `IntVect` or a `REAL[BL_SPACEDIM]` argument is a sequence of
    length `spaceDim`. The C `assert`s (on `ok`, on `c_sys != undef`, and `assert(0)` in
    the default branches) become preconditions. */
module Coords {
  import opened MathLib
  import opened RealArith

  /** CoordSys::CoordType */
  datatype CoordType = Undef | Cartesian | RZ

  /** RZFACTOR = 2 * 4 * atan(1), that is 2 pi */
  function RzFactor(m: Libm): real {
    2.0 * 4.0 * m.atan(1.0)
  }

  /** the static state shared by every CoordSys: `c_sys` and `offset` */
  class CoordStatics {
    const spaceDim: int
    const libm: Libm
    var cSys: CoordType
    var offset: array<real>

    ghost predicate Valid()
      reads this
    {
      (spaceDim == 2 || spaceDim == 3) && offset.Length == spaceDim
    }

    /** program start: `c_sys` is `undef` and the static `offset` is zero-initialised */
    constructor(dim: int, m: Libm)
      requires dim == 2 || dim == 3
      ensures Valid() && spaceDim == dim && libm == m
      ensures cSys == Undef && fresh(offset) && offset[..] == seq(dim, _ => 0.0)
    {
      spaceDim := dim;
      libm := m;
      cSys := Undef;
      offset := new real[dim](_ => 0.0);
    }

    /** `SetCoord(coord)` */
    method SetCoord(coord: CoordType)
      modifies this
      ensures cSys == coord && offset == old(offset)
    {
      cSys := coord;
    }

    /** `SetOffset(x_lo)`: copies the first `spaceDim` entries of `x_lo` into `offset` */
    method SetOffset(xLo: seq<real>)
      requires Valid() && spaceDim <= |xLo|
      modifies offset
      ensures offset[..] == xLo[..spaceDim]
    {
      for k := 0 to spaceDim
        invariant offset[..k] == xLo[..k]
      {
        offset[k] := xLo[k];
      }
    }

    /** `IsRZ()`: only a two-dimensional build can be RZ */
    function IsRZ(): (b: bool)
      reads this
      requires Valid() && cSys != Undef
      ensures b ==> cSys == RZ && !IsCartesian()
      ensures spaceDim == 3 ==> !b
      ensures spaceDim == 2 && cSys == RZ ==> b
    {
      if spaceDim == 2 then cSys == RZ else false
    }

    /** `IsCartesian()` */
    function IsCartesian(): (b: bool)
      reads this
      requires Valid() && cSys != Undef
      ensures b <==> cSys != RZ
    {
      cSys == Cartesian
    }
  }

  /** one grid level: its cell spacing `dx` and whether `define` has run (`ok`) */
  class CoordSys {
    const statics: CoordStatics
    var dx: array<real>
    var ok: bool

    ghost predicate Valid()
      reads this, statics
    {
      statics.Valid() && dx.Length == statics.spaceDim && dx != statics.offset
    }

    /** `CoordSys()`: not yet defined. The source sets only `ok = 0` and leaves `dx`
        uninitialised; the zeros here are the model's choice. */
    constructor Empty(s: CoordStatics)
      requires s.Valid()
      ensures Valid() && statics == s && !ok && fresh(dx)
    {
      statics := s;
      dx := new real[s.spaceDim](_ => 0.0);
      ok := false;
    }

    /** `CoordSys(cell_dx)` */
    constructor(s: CoordStatics, cellDx: seq<real>)
      requires s.Valid() && s.cSys != Undef && s.spaceDim <= |cellDx|
      ensures Valid() && statics == s && ok && fresh(dx) && dx[..] == cellDx[..s.spaceDim]
    {
      statics := s;
      dx := new real[s.spaceDim];
      ok := false;
      new;
      Define(cellDx);
    }

    /** `define(cell_dx)`: copies the first `spaceDim` spacings and marks the object defined */
    method Define(cellDx: seq<real>)
      requires Valid() && statics.cSys != Undef && statics.spaceDim <= |cellDx|
      modifies this, dx
      ensures Valid() && ok && dx == old(dx) && dx[..] == cellDx[..statics.spaceDim]
    {
      for k := 0 to statics.spaceDim
        invariant dx == old(dx) && dx[..k] == cellDx[..k]
      {
        dx[k] := cellDx[k];
      }
      ok := true;
    }

    /** the arguments every location function asks for */
    ghost predicate Defined(dir: int)
      reads this, statics
    {
      Valid() && ok && 0 <= dir < statics.spaceDim
    }

    /** `CellCenter(point, dir)` */
    function CellCenter(point: int, dir: int): real
      reads this, dx, statics, statics.offset
      requires Defined(dir)
    {
      statics.offset[dir] + dx[dir] * (0.5 + point as real)
    }

    /** `LoEdge(point, dir)`; the IntVect overload is LoEdge(point[dir], dir) */
    function LoEdge(point: int, dir: int): real
      reads this, dx, statics, statics.offset
      requires Defined(dir)
    {
      statics.offset[dir] + dx[dir] * point as real
    }

    /** `HiEdge(point, dir)`; the IntVect overload is HiEdge(point[dir], dir) */
    function HiEdge(point: int, dir: int): real
      reads this, dx, statics, statics.offset
      requires Defined(dir)
    {
      statics.offset[dir] + dx[dir] * (point + 1) as real
    }

    /** A cell is `dx` wide, it ends where the next cell begins, and its centre is the
        midpoint of its edges. */
    lemma EdgeGeometry(point: int, dir: int)
      requires Defined(dir)
      ensures HiEdge(point, dir) - LoEdge(point, dir) == dx[dir]
      ensures HiEdge(point, dir) == LoEdge(point + 1, dir)
      ensures CellCenter(point, dir) == (LoEdge(point, dir) + HiEdge(point, dir)) / 2.0
    {
      var d := dx[dir];
      var p := point as real;
      assert d * (p + 1.0) == d * p + d;
      assert d * (0.5 + p) == d * p + d / 2.0;
    }

    /** `CellCenter(point, loc)`: writes the centre of cell `point` into `loc` */
    method CellCenterAt(point: seq<int>, loc: array<real>)
      requires Valid() && ok && |point| == statics.spaceDim && statics.spaceDim <= loc.Length
      requires loc != dx && loc != statics.offset
      modifies loc
      ensures forall k :: 0 <= k < statics.spaceDim ==> loc[k] == CellCenter(point[k], k)
      ensures loc[statics.spaceDim..] == old(loc[statics.spaceDim..])
    {
      for k := 0 to statics.spaceDim
        invariant forall j :: 0 <= j < k ==> loc[j] == CellCenter(point[j], j)
        invariant loc[statics.spaceDim..] == old(loc[statics.spaceDim..])
      {
        loc[k] := statics.offset[k] + dx[k] * (0.5 + point[k] as real);
      }
    }

    /** `LoFace(point, dir, loc)`: the centre of the low face of cell `point` normal to `dir`:
        the low edge in direction `dir` and the cell centre in every other direction */
    method LoFace(point: seq<int>, dir: int, loc: array<real>)
      requires Valid() && ok && |point| == statics.spaceDim && statics.spaceDim <= loc.Length
      requires loc != dx && loc != statics.offset
      modifies loc
      ensures forall k :: 0 <= k < statics.spaceDim ==>
                loc[k] == if k == dir then LoEdge(point[k], k) else CellCenter(point[k], k)
      ensures loc[statics.spaceDim..] == old(loc[statics.spaceDim..])
    {
      for k := 0 to statics.spaceDim
        invariant forall j :: 0 <= j < k ==>
                    loc[j] == if j == dir then LoEdge(point[j], j) else CellCenter(point[j], j)
        invariant loc[statics.spaceDim..] == old(loc[statics.spaceDim..])
      {
        var off := 0.5;
        if k == dir {
          off := 0.0;
        }
        loc[k] := statics.offset[k] + dx[k] * (off + point[k] as real);
      }
    }

    /** `HiFace(point, dir, loc)`: as LoFace, with the high edge in direction `dir` */
    method HiFace(point: seq<int>, dir: int, loc: array<real>)
      requires Valid() && ok && |point| == statics.spaceDim && statics.spaceDim <= loc.Length
      requires loc != dx && loc != statics.offset
      modifies loc
      ensures forall k :: 0 <= k < statics.spaceDim ==>
                loc[k] == if k == dir then HiEdge(point[k], k) else CellCenter(point[k], k)
      ensures loc[statics.spaceDim..] == old(loc[statics.spaceDim..])
    {
      for k := 0 to statics.spaceDim
        invariant forall j :: 0 <= j < k ==>
                    loc[j] == if j == dir then HiEdge(point[j], j) else CellCenter(point[j], j)
        invariant loc[statics.spaceDim..] == old(loc[statics.spaceDim..])
      {
        var off := 0.5;
        if k == dir {
          off := 1.0;
        }
        loc[k] := statics.offset[k] + dx[k] * (off + point[k] as real);
      }
    }

    /** `LoNode(point, loc)`: the low corner of cell `point` */
    method LoNode(point: seq<int>, loc: array<real>)
      requires Valid() && ok && |point| == statics.spaceDim && statics.spaceDim <= loc.Length
      requires loc != dx && loc != statics.offset
      modifies loc
      ensures forall k :: 0 <= k < statics.spaceDim ==> loc[k] == LoEdge(point[k], k)
      ensures loc[statics.spaceDim..] == old(loc[statics.spaceDim..])
    {
      for k := 0 to statics.spaceDim
        invariant forall j :: 0 <= j < k ==> loc[j] == LoEdge(point[j], j)
        invariant loc[statics.spaceDim..] == old(loc[statics.spaceDim..])
      {
        loc[k] := statics.offset[k] + dx[k] * point[k] as real;
      }
    }

    /** `HiNode(point, loc)`: the high corner of cell `point` */
    method HiNode(point: seq<int>, loc: array<real>)
      requires Valid() && ok && |point| == statics.spaceDim && statics.spaceDim <= loc.Length
      requires loc != dx && loc != statics.offset
      modifies loc
      ensures forall k :: 0 <= k < statics.spaceDim ==> loc[k] == HiEdge(point[k], k)
      ensures loc[statics.spaceDim..] == old(loc[statics.spaceDim..])
    {
      for k := 0 to statics.spaceDim
        invariant forall j :: 0 <= j < k ==> loc[j] == HiEdge(point[j], j)
        invariant loc[statics.spaceDim..] == old(loc[statics.spaceDim..])
      {
        loc[k] := statics.offset[k] + dx[k] * (point[k] + 1) as real;
      }
    }

    /** every spacing is non-zero, so that a coordinate can be divided by it */
    predicate NonZeroSpacing()
      reads this, dx, statics
      requires Valid()
    {
      forall k :: 0 <= k < statics.spaceDim ==> dx[k] != 0.0
    }

    /** `(int) ((x - offset[dir]) / dx[dir])`: the C cast truncates toward zero */
    function IndexOf(x: real, dir: int): int
      reads this, dx, statics, statics.offset
      requires Defined(dir) && dx[dir] != 0.0
    {
      TruncToInt((x - statics.offset[dir]) / dx[dir])
    }

    /** `CellIndex(point)` */
    method CellIndex(point: seq<real>) returns (ix: seq<int>)
      requires Valid() && ok && |point| == statics.spaceDim && NonZeroSpacing()
      ensures |ix| == statics.spaceDim
      ensures forall k :: 0 <= k < statics.spaceDim ==> ix[k] == IndexOf(point[k], k)
    {
      ix := [];
      for k := 0 to statics.spaceDim
        invariant |ix| == k
        invariant forall j :: 0 <= j < k ==> ix[j] == IndexOf(point[j], j)
      {
        ix := ix + [TruncToInt((point[k] - statics.offset[k]) / dx[k])];
      }
    }

    /** `LowerIndex(point)`: its body is the body of CellIndex */
    method LowerIndex(point: seq<real>) returns (ix: seq<int>)
      requires Valid() && ok && |point| == statics.spaceDim && NonZeroSpacing()
      ensures |ix| == statics.spaceDim
      ensures forall k :: 0 <= k < statics.spaceDim ==> ix[k] == IndexOf(point[k], k)
    {
      ix := CellIndex(point);
    }

    /** `UpperIndex(point)`: the source repeats the body of LowerIndex (and so of CellIndex)
        word for word, with no shift to the upper side of the cell, and so does the model */
    method UpperIndex(point: seq<real>) returns (ix: seq<int>)
      requires Valid() && ok && |point| == statics.spaceDim && NonZeroSpacing()
      ensures |ix| == statics.spaceDim
      ensures forall k :: 0 <= k < statics.spaceDim ==> ix[k] == IndexOf(point[k], k)
    {
      ix := CellIndex(point);
    }

    /** The index of a cell's low edge is the cell itself, on either side of the origin. */
    lemma EdgeIndex(point: int, dir: int)
      requires Defined(dir) && dx[dir] != 0.0
      ensures IndexOf(LoEdge(point, dir), dir) == point
    {
      var p := point as real;
      ProductQuotient(p, dx[dir]);
      assert LoEdge(point, dir) - statics.offset[dir] == dx[dir] * p;
      assert (LoEdge(point, dir) - statics.offset[dir]) / dx[dir] == p;
    }

    /** The index of a cell centre is the cell for a non-negative cell; for a negative cell
        the truncation toward zero gives the cell above it. */
    lemma CenterIndex(point: int, dir: int)
      requires Defined(dir) && dx[dir] != 0.0
      ensures 0 <= point ==> IndexOf(CellCenter(point, dir), dir) == point
      ensures point < 0 ==> IndexOf(CellCenter(point, dir), dir) == point + 1
    {
      var c := 0.5 + point as real;
      ProductQuotient(c, dx[dir]);
      assert CellCenter(point, dir) - statics.offset[dir] == dx[dir] * c;
      assert (CellCenter(point, dir) - statics.offset[dir]) / dx[dir] == c;
    }

    /** With a positive spacing, a point at or above the origin lies in the cell that
        IndexOf names: between that cell's low and high edge. */
    lemma CellContains(x: real, dir: int)
      requires Defined(dir) && dx[dir] > 0.0 && statics.offset[dir] <= x
      ensures LoEdge(IndexOf(x, dir), dir) <= x < HiEdge(IndexOf(x, dir), dir)
    {
      var i := IndexOf(x, dir);
      QuotientBracket(x - statics.offset[dir], dx[dir], i);
    }

    /** `GetEdgeLoc(loc, region, dir)`: the `hi - lo + 2` edge positions of a cell-centred
        region in direction `dir`, from the low edge of cell `lo[dir]` on */
    method GetEdgeLoc(lo: seq<int>, hi: seq<int>, dir: int) returns (loc: array<real>)
      requires Defined(dir) && |lo| == statics.spaceDim && |hi| == statics.spaceDim
      requires 0 <= hi[dir] - lo[dir] + 2
      ensures fresh(loc) && loc.Length == hi[dir] - lo[dir] + 2
      ensures forall i :: 0 <= i < loc.Length ==> loc[i] == LoEdge(lo[dir] + i, dir)
    {
      var len := hi[dir] - lo[dir] + 2;
      loc := new real[len];
      var off := statics.offset[dir] + dx[dir] * lo[dir] as real;
      for i := 0 to len
        invariant forall j :: 0 <= j < i ==> loc[j] == LoEdge(lo[dir] + j, dir)
      {
        loc[i] := off + dx[dir] * i as real;
        assert dx[dir] * (lo[dir] + i) as real == dx[dir] * lo[dir] as real + dx[dir] * i as real;
      }
    }

    /** `GetCellLoc(loc, region, dir)`: the `hi - lo + 1` cell centres of a cell-centred
        region in direction `dir` */
    method GetCellLoc(lo: seq<int>, hi: seq<int>, dir: int) returns (loc: array<real>)
      requires Defined(dir) && |lo| == statics.spaceDim && |hi| == statics.spaceDim
      requires 0 <= hi[dir] - lo[dir] + 1
      ensures fresh(loc) && loc.Length == hi[dir] - lo[dir] + 1
      ensures forall i :: 0 <= i < loc.Length ==> loc[i] == CellCenter(lo[dir] + i, dir)
    {
      var len := hi[dir] - lo[dir] + 1;
      loc := new real[len];
      var off := statics.offset[dir] + dx[dir] * (0.5 + lo[dir] as real);
      for i := 0 to len
        invariant forall j :: 0 <= j < i ==> loc[j] == CellCenter(lo[dir] + j, dir)
      {
        loc[i] := off + dx[dir] * i as real;
        assert dx[dir] * (0.5 + (lo[dir] + i) as real) == dx[dir] * (0.5 + lo[dir] as real) + dx[dir] * i as real;
      }
    }

    /** The volume coordinate of a position r: r^2 / 2 in the radial direction of an RZ
        build, r itself otherwise. */
    function VolCoord(r: real, dir: int): real
      reads this, statics
    {
      if statics.spaceDim == 2 && dir == 0 && statics.cSys == RZ then 0.5 * r * r else r
    }

    /** the in-place rewrite shared by GetEdgeVolCoord and GetCellVolCoord */
    method ToVolCoord(vc: array<real>, dir: int)
      modifies vc
      ensures forall i :: 0 <= i < vc.Length ==> vc[i] == VolCoord(old(vc[i]), dir)
    {
      if statics.spaceDim == 2 && dir == 0 && statics.cSys == RZ {
        var len := vc.Length;
        for i := 0 to len
          invariant forall j :: 0 <= j < i ==> vc[j] == VolCoord(old(vc[j]), dir)
          invariant forall j :: i <= j < len ==> vc[j] == old(vc[j])
        {
          var r := vc[i];
          vc[i] := 0.5 * r * r;
        }
      }
    }

    /** `GetEdgeVolCoord(vc, region, dir)`: the volume coordinates of the edges */
    method GetEdgeVolCoord(lo: seq<int>, hi: seq<int>, dir: int) returns (vc: array<real>)
      requires Defined(dir) && |lo| == statics.spaceDim && |hi| == statics.spaceDim
      requires 0 <= hi[dir] - lo[dir] + 2
      ensures fresh(vc) && vc.Length == hi[dir] - lo[dir] + 2
      ensures forall i :: 0 <= i < vc.Length ==> vc[i] == VolCoord(LoEdge(lo[dir] + i, dir), dir)
    {
      vc := GetEdgeLoc(lo, hi, dir);
      ToVolCoord(vc, dir);
    }

    /** `GetCellVolCoord(vc, region, dir)`: the volume coordinates of the cell centres */
    method GetCellVolCoord(lo: seq<int>, hi: seq<int>, dir: int) returns (vc: array<real>)
      requires Defined(dir) && |lo| == statics.spaceDim && |hi| == statics.spaceDim
      requires 0 <= hi[dir] - lo[dir] + 1
      ensures fresh(vc) && vc.Length == hi[dir] - lo[dir] + 1
      ensures forall i :: 0 <= i < vc.Length ==> vc[i] == VolCoord(CellCenter(lo[dir] + i, dir), dir)
    {
      vc := GetCellLoc(lo, hi, dir);
      ToVolCoord(vc, dir);
    }

    /** the coordinate kinds for which `Volume` and the two-dimensional `AreaLo`/`AreaHi`
        have a case (the default case is `assert(0)`) */
    predicate HasCase()
      reads this, statics
    {
      statics.cSys == Cartesian || (statics.spaceDim == 2 && statics.cSys == RZ)
    }

    /** `Volume(xlo, xhi)`: the volume of the box between two corners */
    function BoxVolume(xlo: seq<real>, xhi: seq<real>): real
      reads this, statics
      requires Valid() && HasCase() && |xlo| == statics.spaceDim && |xhi| == statics.spaceDim
    {
      if statics.cSys == Cartesian then
        if statics.spaceDim == 2 then (xhi[0] - xlo[0]) * (xhi[1] - xlo[1])
        else (xhi[0] - xlo[0]) * (xhi[1] - xlo[1]) * (xhi[2] - xlo[2])
      else
        (0.5 * RzFactor(statics.libm)) * (xhi[1] - xlo[1]) * (xhi[0] * xhi[0] - xlo[0] * xlo[0])
    }

    /** the product of the spacings */
    function DxProduct(): real
      reads this, dx, statics
      requires Valid()
    {
      if statics.spaceDim == 2 then dx[0] * dx[1] else dx[0] * dx[1] * dx[2]
    }

    /** `AreaLo(point, dir)`: the area of the low face of cell `point` normal to `dir`.
        Outside RZ it does not depend on the point; in three dimensions it does not look at
        `c_sys`, and a direction other than 0, 1, 2 gives 0. */
    function AreaLo(point: seq<int>, dir: int): (area: real)
      reads this, dx, statics, statics.offset
      requires Valid() && |point| == statics.spaceDim
      requires statics.spaceDim == 2 ==> HasCase() && 0 <= dir < 2
      requires statics.spaceDim == 2 && statics.cSys == RZ ==> ok
      ensures statics.spaceDim == 3 && !(0 <= dir < 3) ==> area == 0.0
    {
      if statics.spaceDim == 2 then
        if statics.cSys == Cartesian then
          if dir == 0 then dx[1] else dx[0]
        else
          var xlo := LoEdge(point[0], 0);
          if dir == 0 then RzFactor(statics.libm) * dx[1] * xlo
          else ((xlo + dx[0]) * (xlo + dx[0]) - xlo * xlo) * (0.5 * RzFactor(statics.libm))
      else if dir == 0 then dx[1] * dx[2]
      else if dir == 1 then dx[0] * dx[2]
      else if dir == 2 then dx[1] * dx[0]
      else 0.0
    }

    /** `AreaHi(point, dir)`: the area of the high face of cell `point` normal to `dir` */
    function AreaHi(point: seq<int>, dir: int): (area: real)
      reads this, dx, statics, statics.offset
      requires Valid() && |point| == statics.spaceDim
      requires statics.spaceDim == 2 ==> HasCase() && 0 <= dir < 2
      requires statics.spaceDim == 2 && statics.cSys == RZ ==> ok
      ensures statics.spaceDim == 3 && !(0 <= dir < 3) ==> area == 0.0
    {
      if statics.spaceDim == 2 then
        if statics.cSys == Cartesian then
          if dir == 0 then dx[1] else dx[0]
        else
          var xhi := HiEdge(point[0], 0);
          if dir == 0 then RzFactor(statics.libm) * dx[1] * xhi
          else (xhi * xhi - (xhi - dx[0]) * (xhi - dx[0])) * (RzFactor(statics.libm) * 0.5)
      else if dir == 0 then dx[1] * dx[2]
      else if dir == 1 then dx[0] * dx[2]
      else if dir == 2 then dx[1] * dx[0]
      else 0.0
    }

    /** The high face of a cell is the low face of the next cell in that direction. */
    lemma SharedFace(point: seq<int>, dir: int)
      requires Defined(dir) && |point| == statics.spaceDim
      requires statics.spaceDim == 2 ==> HasCase()
      ensures AreaHi(point, dir) == AreaLo(point[dir := point[dir] + 1], dir)
    {
      if statics.spaceDim == 2 && statics.cSys == RZ {
        EdgeGeometry(point[0], 0);
        if dir == 1 {
          assert HiEdge(point[0], 0) - dx[0] == LoEdge(point[0], 0);
        }
      }
    }

    /** Outside RZ a face has the same area wherever the cell is, and face area times the
        width across the face is the product of the spacings. */
    lemma FlatFaceArea(point: seq<int>, other: seq<int>, dir: int)
      requires Defined(dir) && |point| == statics.spaceDim && |other| == statics.spaceDim
      requires statics.spaceDim == 3 || statics.cSys == Cartesian
      ensures AreaLo(point, dir) == AreaHi(other, dir)
      ensures AreaLo(point, dir) * dx[dir] == DxProduct()
    {
    }

    /** An RZ cell is a ring: its volume, the area of its low axial face times its height,
        is 2 pi times its radial centre times dr dz (Pappus' theorem). */
    lemma RingVolume(point: seq<int>)
      requires Valid() && ok && statics.spaceDim == 2 && statics.cSys == RZ && |point| == 2
      ensures AreaLo(point, 1) * dx[1] == RzFactor(statics.libm) * CellCenter(point[0], 0) * dx[0] * dx[1]
    {
      var f := RzFactor(statics.libm);
      var rl := LoEdge(point[0], 0);
      var rh := rl + dx[0];
      EdgeGeometry(point[0], 0);
      SquareDifference(rh, rl);
      assert rh + rl == 2.0 * CellCenter(point[0], 0);
      assert rh * rh - rl * rl == dx[0] * (2.0 * CellCenter(point[0], 0));
    }

    /** `Volume(point)`: the volume of cell `point`, from its two corner nodes */
    method Volume(point: seq<int>) returns (v: real)
      requires Valid() && ok && HasCase() && |point| == statics.spaceDim
      ensures statics.cSys == Cartesian ==> v == DxProduct()
      ensures statics.cSys == RZ ==> v == AreaLo(point, 1) * dx[1]
    {
      var xhi := new real[statics.spaceDim];
      var xlo := new real[statics.spaceDim];
      HiNode(point, xhi);
      LoNode(point, xlo);
      v := BoxVolume(xlo[..], xhi[..]);
      CornerVolume(point, xlo[..], xhi[..]);
    }

    /** the volume between the corner nodes of cell `point` */
    lemma CornerVolume(point: seq<int>, xlo: seq<real>, xhi: seq<real>)
      requires Valid() && ok && HasCase() && |point| == statics.spaceDim
      requires |xlo| == statics.spaceDim && |xhi| == statics.spaceDim
      requires forall k :: 0 <= k < statics.spaceDim ==> xlo[k] == LoEdge(point[k], k) && xhi[k] == HiEdge(point[k], k)
      ensures statics.cSys == Cartesian ==> BoxVolume(xlo, xhi) == DxProduct()
      ensures statics.cSys == RZ ==> BoxVolume(xlo, xhi) == AreaLo(point, 1) * dx[1]
    {
      forall k | 0 <= k < statics.spaceDim
        ensures xhi[k] - xlo[k] == dx[k]
      {
        EdgeGeometry(point[k], k);
      }
      if statics.cSys == RZ {
        assert xhi[0] == xlo[0] + dx[0];
      }
    }
  }
}
