/** The transfer between one Lagrangian marker and the Eulerian field over a 5 x 5 x 5
    stencil of nodes: the scatter `ForceSpreading_cic` and the gather
    `VelocityInterpolation_cir` (Source/DiffusedIB.cpp:91-172).

    The field is one AMReX fab: an `array4<real>` whose entry E[a, b, c, n] holds component n
    of node (lo.i + a, lo.j + b, lo.k + c). */
module ParticleMesh {
  import opened Vectors
  import opened DeltaKernel

  /** the finest level's `ProbLoArray` and `CellSizeArray` */
  datatype Geometry = Geometry(plo: Vec3, dx: Vec3) {
    predicate Valid() {
      dx.x != 0.0 && dx.y != 0.0 && dx.z != 0.0
    }
  }

  /** The one-dimensional kernel `deltaFunction(xf, xp, h, value, type)` for a fixed square
      root and kernel type. Every call the stencil loops make has h = dx[dir] != 0; the value
      0 at h = 0 is never used. */
  function KernelOf(sqrt: real -> real, kind: DeltaType): (real, real, real) -> real {
    (xf: real, xp: real, h: real) => if h == 0.0 then 0.0 else DeltaFunction(sqrt, xf, xp, h, kind)
  }

  /** What every transfer shares: the kernel the loops call (KernelOf of the run's square root
      and kernel type), the geometry, and the node held by the fab's first entry E[0, 0, 0, _]. */
  datatype Transfer = Transfer(delta: (real, real, real) -> real, geom: Geometry, lo: Cell) {
    predicate Valid() {
      geom.Valid()
    }
  }

  /** `d = dx[0] * dx[1] * dx[2]` */
  function CellVolume(g: Geometry): real {
    g.dx.x * g.dx.y * g.dx.z
  }

  /** `(i, j, k) = floor((pos - plo) / dx)`, the cell holding the marker */
  function BaseCell(g: Geometry, p: Vec3): Cell
    requires g.Valid()
  {
    Cell(((p.x - g.plo.x) / g.dx.x).Floor, ((p.y - g.plo.y) / g.dx.y).Floor, ((p.z - g.plo.z) / g.dx.z).Floor)
  }

  /** The base cell is the cell whose index range [i, i + 1) holds the marker's scaled position. */
  lemma BaseCellHoldsMarker(g: Geometry, p: Vec3)
    requires g.Valid()
    ensures var c := BaseCell(g, p);
            && c.i as real <= (p.x - g.plo.x) / g.dx.x < c.i as real + 1.0
            && c.j as real <= (p.y - g.plo.y) / g.dx.y < c.j as real + 1.0
            && c.k as real <= (p.z - g.plo.z) / g.dx.z < c.k as real + 1.0
  {
  }

  /** The coordinate the stencil gives node n along one axis: `n * h + h / 2`. The problem's
      lower corner `plo` is not added, although `BaseCell` subtracts it. */
  function NodeCoord(n: int, h: real): real {
    n as real * h + h / 2.0
  }

  /** `tU * tV * tW`: the product of the three one-dimensional kernel weights between the
      marker at p and the stencil node `node` */
  function Weight(tr: Transfer, p: Vec3, node: Cell): real
    requires tr.Valid()
  {
    var g := tr.geom;
    tr.delta(p.x, NodeCoord(node.i, g.dx.x), g.dx.x)
    * tr.delta(p.y, NodeCoord(node.j, g.dx.y), g.dx.y)
    * tr.delta(p.z, NodeCoord(node.k, g.dx.z), g.dx.z)
  }

  // ---------------------------------------------------------------------------------------
  // The stencil: offsets (ii, jj, kk) in [-2, 2]^3, which the three nested loops visit in
  // lexicographic order, kk fastest.

  predicate InStencil(o: Cell) {
    -2 <= o.i <= 2 && -2 <= o.j <= 2 && -2 <= o.k <= 2
  }

  /** offset o comes before (ii, jj, kk) in the loops' order */
  predicate Before(o: Cell, ii: int, jj: int, kk: int) {
    o.i < ii || (o.i == ii && (o.j < jj || (o.j == jj && o.k < kk)))
  }

  /** the offset of a node from the marker's base cell */
  function OffsetFrom(base: Cell, node: Cell): Cell {
    Cell(node.i - base.i, node.j - base.j, node.k - base.k)
  }

  /** the node an entry E[a, b, c, _] holds */
  function NodeOf(lo: Cell, a: int, b: int, c: int): Cell {
    Cell(lo.i + a, lo.j + b, lo.k + c)
  }

  /** The whole stencil around `base` lies inside the fab: every access is in bounds. */
  predicate StencilInside(E: array4<real>, lo: Cell, base: Cell) {
    && lo.i <= base.i - 2 && base.i + 2 - lo.i < E.Length0
    && lo.j <= base.j - 2 && base.j + 2 - lo.j < E.Length1
    && lo.k <= base.k - 2 && base.k + 2 - lo.k < E.Length2
  }

  predicate InFab(E: array4<real>, a: int, b: int, c: int, n: int) {
    0 <= a < E.Length0 && 0 <= b < E.Length1 && 0 <= c < E.Length2 && 0 <= n < E.Length3
  }

  // ---------------------------------------------------------------------------------------
  // Spreading

  /** What spreading the quantity f of a marker at p adds to entry E[a, b, c, n]:
      `tU * tV * tW * f_c * d` on the 125 stencil nodes and components fComp + c for
      c in 0 .. 2, and nothing anywhere else. */
  function SpreadIncrement(tr: Transfer, base: Cell, p: Vec3, f: Vec3, fComp: int, a: int, b: int, c: int, n: int): real
    requires tr.Valid()
  {
    var node := NodeOf(tr.lo, a, b, c);
    if InStencil(OffsetFrom(base, node)) && fComp <= n < fComp + 3 then
      Amount(tr, p, f, node, n - fComp)
    else
      0.0
  }

  /** `delta_value * f_c * d`, what one atomic add puts at a stencil node */
  function Amount(tr: Transfer, p: Vec3, f: Vec3, node: Cell, c: int): real
    requires tr.Valid() && 0 <= c < 3
  {
    Weight(tr, p, node) * f.At(c) * CellVolume(tr.geom)
  }

  /** the part of SpreadIncrement that the loops have added before visiting (ii, jj, kk) */
  function SpreadPrefix(tr: Transfer, base: Cell, p: Vec3, f: Vec3, fComp: int, a: int, b: int, c: int, n: int,
                        ii: int, jj: int, kk: int): real
    requires tr.Valid()
  {
    if Before(OffsetFrom(base, NodeOf(tr.lo, a, b, c)), ii, jj, kk) then
      SpreadIncrement(tr, base, p, f, fComp, a, b, c, n)
    else
      0.0
  }

  /** `ForceSpreading_cic(p, fx, fy, fz, E, EularFIndex, plo, dx, type)`: every entry grows by
      its SpreadIncrement, so only the three components from fComp on change, and only at the
      125 stencil nodes. */
  method ForceSpreadingCic(tr: Transfer, p: Vec3, f: Vec3, E: array4<real>, fComp: int)
    requires tr.Valid()
    requires 0 <= fComp && fComp + 3 <= E.Length3
    requires StencilInside(E, tr.lo, BaseCell(tr.geom, p))
    modifies E
    ensures forall a, b, c, n | InFab(E, a, b, c, n) ::
              E[a, b, c, n] == old(E[a, b, c, n]) + SpreadIncrement(tr, BaseCell(tr.geom, p), p, f, fComp, a, b, c, n)
    ensures forall a, b, c, n | InFab(E, a, b, c, n) && !(fComp <= n < fComp + 3) :: E[a, b, c, n] == old(E[a, b, c, n])
    ensures forall a, b, c, n | InFab(E, a, b, c, n) && !InStencil(OffsetFrom(BaseCell(tr.geom, p), NodeOf(tr.lo, a, b, c))) ::
              E[a, b, c, n] == old(E[a, b, c, n])
  {
    var g := tr.geom;
    var d := CellVolume(g);
    var base := BaseCell(g, p);
    var i, j, k := base.i, base.j, base.k;
    for ii := -2 to 3
      invariant forall a, b, c, n | InFab(E, a, b, c, n) ::
                  E[a, b, c, n] == old(E[a, b, c, n]) + SpreadPrefix(tr, base, p, f, fComp, a, b, c, n, ii, -2, -2)
    {
      for jj := -2 to 3
        invariant forall a, b, c, n | InFab(E, a, b, c, n) ::
                    E[a, b, c, n] == old(E[a, b, c, n]) + SpreadPrefix(tr, base, p, f, fComp, a, b, c, n, ii, jj, -2)
      {
        for kk := -2 to 3
          invariant forall a, b, c, n | InFab(E, a, b, c, n) ::
                      E[a, b, c, n] == old(E[a, b, c, n]) + SpreadPrefix(tr, base, p, f, fComp, a, b, c, n, ii, jj, kk)
        {
          var xi := NodeCoord(i + ii, g.dx.x);
          var yj := NodeCoord(j + jj, g.dx.y);
          var kz := NodeCoord(k + kk, g.dx.z);
          var tU := tr.delta(p.x, xi, g.dx.x);
          var tV := tr.delta(p.y, yj, g.dx.y);
          var tW := tr.delta(p.z, kz, g.dx.z);
          var w := tU * tV * tW;
          var a0, b0, c0 := i + ii - tr.lo.i, j + jj - tr.lo.j, k + kk - tr.lo.k;
          var v := Vec3(w * f.x * d, w * f.y * d, w * f.z * d);
          assert NodeOf(tr.lo, a0, b0, c0) == Cell(i + ii, j + jj, k + kk);
          assert OffsetFrom(base, Cell(i + ii, j + jj, k + kk)) == Cell(ii, jj, kk);
          AmountOfFactors(tr, p, f, Cell(i + ii, j + jj, k + kk), tU, tV, tW, v);
          SpreadStep(tr, base, p, f, fComp, E, a0, b0, c0, ii, jj, kk, v);
          AddAtNode(E, a0, b0, c0, fComp, v);
        }
        SpreadRowDone(tr, base, p, f, fComp, E, ii, jj);
      }
      SpreadPlaneDone(tr, base, p, f, fComp, E, ii);
    }
  }

  /** the loops' `tU * tV * tW * f_c * d` at a node are the node's three Amounts */
  lemma AmountOfFactors(tr: Transfer, p: Vec3, f: Vec3, node: Cell, tU: real, tV: real, tW: real, v: Vec3)
    requires tr.Valid()
    requires tU == tr.delta(p.x, NodeCoord(node.i, tr.geom.dx.x), tr.geom.dx.x)
    requires tV == tr.delta(p.y, NodeCoord(node.j, tr.geom.dx.y), tr.geom.dx.y)
    requires tW == tr.delta(p.z, NodeCoord(node.k, tr.geom.dx.z), tr.geom.dx.z)
    requires var w := tU * tV * tW;
             var d := CellVolume(tr.geom);
             v == Vec3(w * f.x * d, w * f.y * d, w * f.z * d)
    ensures v == Vec3(Amount(tr, p, f, node, 0), Amount(tr, p, f, node, 1), Amount(tr, p, f, node, 2))
  {
  }

  /** What the adds at node (a0, b0, c0) contribute to entry E[a, b, c, n]. */
  function NodeDelta(a0: int, b0: int, c0: int, fComp: int, v: Vec3, a: int, b: int, c: int, n: int): real {
    if (a, b, c) == (a0, b0, c0) && fComp <= n < fComp + 3 then v.At(n - fComp) else 0.0
  }

  /** Visiting (ii, jj, kk) adds the amounts v to the entries of its node, and these are
      exactly the SpreadIncrements of that node; every other prefix stays as it was. */
  lemma SpreadStep(tr: Transfer, base: Cell, p: Vec3, f: Vec3, fComp: int, E: array4<real>, a0: int, b0: int, c0: int,
                   ii: int, jj: int, kk: int, v: Vec3)
    requires tr.Valid() && InStencil(Cell(ii, jj, kk))
    requires OffsetFrom(base, NodeOf(tr.lo, a0, b0, c0)) == Cell(ii, jj, kk)
    requires var node := NodeOf(tr.lo, a0, b0, c0);
             v == Vec3(Amount(tr, p, f, node, 0), Amount(tr, p, f, node, 1), Amount(tr, p, f, node, 2))
    ensures forall a, b, c, n | InFab(E, a, b, c, n) ::
              SpreadPrefix(tr, base, p, f, fComp, a, b, c, n, ii, jj, kk + 1)
              == SpreadPrefix(tr, base, p, f, fComp, a, b, c, n, ii, jj, kk) + NodeDelta(a0, b0, c0, fComp, v, a, b, c, n)
  {
    forall a, b, c, n | InFab(E, a, b, c, n)
      ensures SpreadPrefix(tr, base, p, f, fComp, a, b, c, n, ii, jj, kk + 1)
              == SpreadPrefix(tr, base, p, f, fComp, a, b, c, n, ii, jj, kk) + NodeDelta(a0, b0, c0, fComp, v, a, b, c, n)
    {
      if (a, b, c) == (a0, b0, c0) {
        SpreadStepAtNode(tr, base, p, f, fComp, a0, b0, c0, ii, jj, kk, v, n);
      } else {
        SpreadStepElsewhere(tr, base, p, f, fComp, a0, b0, c0, ii, jj, kk, v, a, b, c, n);
      }
    }
  }

  lemma SpreadStepAtNode(tr: Transfer, base: Cell, p: Vec3, f: Vec3, fComp: int, a0: int, b0: int, c0: int,
                         ii: int, jj: int, kk: int, v: Vec3, n: int)
    requires tr.Valid() && InStencil(Cell(ii, jj, kk))
    requires OffsetFrom(base, NodeOf(tr.lo, a0, b0, c0)) == Cell(ii, jj, kk)
    requires var node := NodeOf(tr.lo, a0, b0, c0);
             v == Vec3(Amount(tr, p, f, node, 0), Amount(tr, p, f, node, 1), Amount(tr, p, f, node, 2))
    ensures SpreadPrefix(tr, base, p, f, fComp, a0, b0, c0, n, ii, jj, kk) == 0.0
    ensures SpreadPrefix(tr, base, p, f, fComp, a0, b0, c0, n, ii, jj, kk + 1) == NodeDelta(a0, b0, c0, fComp, v, a0, b0, c0, n)
  {
  }

  lemma SpreadStepElsewhere(tr: Transfer, base: Cell, p: Vec3, f: Vec3, fComp: int, a0: int, b0: int, c0: int,
                            ii: int, jj: int, kk: int, v: Vec3, a: int, b: int, c: int, n: int)
    requires tr.Valid()
    requires OffsetFrom(base, NodeOf(tr.lo, a0, b0, c0)) == Cell(ii, jj, kk)
    requires (a, b, c) != (a0, b0, c0)
    ensures SpreadPrefix(tr, base, p, f, fComp, a, b, c, n, ii, jj, kk + 1) == SpreadPrefix(tr, base, p, f, fComp, a, b, c, n, ii, jj, kk)
    ensures NodeDelta(a0, b0, c0, fComp, v, a, b, c, n) == 0.0
  {
    assert OffsetFrom(base, NodeOf(tr.lo, a, b, c)) != Cell(ii, jj, kk);
  }

  /** After kk == 3 the row (ii, jj) is complete: the prefix equals the one before (ii, jj + 1, -2). */
  lemma SpreadRowDone(tr: Transfer, base: Cell, p: Vec3, f: Vec3, fComp: int, E: array4<real>, ii: int, jj: int)
    requires tr.Valid()
    ensures forall a, b, c, n | InFab(E, a, b, c, n) ::
              SpreadPrefix(tr, base, p, f, fComp, a, b, c, n, ii, jj, 3)
              == SpreadPrefix(tr, base, p, f, fComp, a, b, c, n, ii, jj + 1, -2)
  {
  }

  /** After jj == 3 the plane ii is complete: the prefix equals the one before (ii + 1, -2, -2). */
  lemma SpreadPlaneDone(tr: Transfer, base: Cell, p: Vec3, f: Vec3, fComp: int, E: array4<real>, ii: int)
    requires tr.Valid()
    ensures forall a, b, c, n | InFab(E, a, b, c, n) ::
              SpreadPrefix(tr, base, p, f, fComp, a, b, c, n, ii, 3, -2)
              == SpreadPrefix(tr, base, p, f, fComp, a, b, c, n, ii + 1, -2, -2)
  {
  }
  /** the three atomic adds at one node: `E(node, fComp + c) += v_c` for c in 0 .. 2 */
  method AddAtNode(E: array4<real>, a0: int, b0: int, c0: int, fComp: int, v: Vec3)
    requires InFab(E, a0, b0, c0, fComp) && fComp + 3 <= E.Length3
    modifies E
    ensures forall a, b, c, n | InFab(E, a, b, c, n) ::
              E[a, b, c, n] == old(E[a, b, c, n]) + NodeDelta(a0, b0, c0, fComp, v, a, b, c, n)
  {
    E[a0, b0, c0, fComp] := E[a0, b0, c0, fComp] + v.x;
    E[a0, b0, c0, fComp + 1] := E[a0, b0, c0, fComp + 1] + v.y;
    E[a0, b0, c0, fComp + 2] := E[a0, b0, c0, fComp + 2] + v.z;
  }

  // ---------------------------------------------------------------------------------------
  // Interpolation

  /** what the gather may read: the stencil around `base` and components vComp .. vComp + 2 */
  predicate GatherArgs(tr: Transfer, base: Cell, E: array4<real>, vComp: int) {
    tr.Valid() && StencilInside(E, tr.lo, base) && 0 <= vComp && vComp + 3 <= E.Length3
  }

  /** the node at offset o from the base cell */
  function NodeAt(base: Cell, o: Cell): Cell {
    Cell(base.i + o.i, base.j + o.j, base.k + o.k)
  }

  /** the three field components vComp .. vComp + 2 at a stencil node */
  function FieldAt(tr: Transfer, base: Cell, E: array4<real>, vComp: int, o: Cell): Vec3
    reads E
    requires GatherArgs(tr, base, E, vComp) && InStencil(o)
  {
    var node := NodeAt(base, o);
    var a, b, c := node.i - tr.lo.i, node.j - tr.lo.j, node.k - tr.lo.k;
    Vec3(E[a, b, c, vComp], E[a, b, c, vComp + 1], E[a, b, c, vComp + 2])
  }

  /** `delta_value * E(node, vComp + c) * d` at stencil offset o, for c = 0, 1, 2 */
  function GatherTerm(tr: Transfer, base: Cell, p: Vec3, E: array4<real>, vComp: int, o: Cell): Vec3
    reads E
    requires GatherArgs(tr, base, E, vComp) && InStencil(o)
  {
    WeightedField(tr, base, p, FieldAt(tr, base, E, vComp, o), o)
  }

  /** `delta_value * e_c * d` for the field value e at stencil offset o */
  function WeightedField(tr: Transfer, base: Cell, p: Vec3, e: Vec3, o: Cell): Vec3
    requires tr.Valid()
  {
    var w := Weight(tr, p, NodeAt(base, o));
    var d := CellVolume(tr.geom);
    Vec3(w * e.x * d, w * e.y * d, w * e.z * d)
  }

  /** the terms of row (ii, jj) with kk' < kk */
  function GatherRow(tr: Transfer, base: Cell, p: Vec3, E: array4<real>, vComp: int, ii: int, jj: int, kk: int): Vec3
    reads E
    requires GatherArgs(tr, base, E, vComp)
    requires -2 <= ii <= 2 && -2 <= jj <= 2 && -2 <= kk <= 3
    decreases kk + 2
  {
    if kk == -2 then Zero
    else GatherRow(tr, base, p, E, vComp, ii, jj, kk - 1).Add(GatherTerm(tr, base, p, E, vComp, Cell(ii, jj, kk - 1)))
  }

  /** the terms of plane ii with jj' < jj */
  function GatherPlane(tr: Transfer, base: Cell, p: Vec3, E: array4<real>, vComp: int, ii: int, jj: int): Vec3
    reads E
    requires GatherArgs(tr, base, E, vComp)
    requires -2 <= ii <= 2 && -2 <= jj <= 3
    decreases jj + 2
  {
    if jj == -2 then Zero
    else GatherPlane(tr, base, p, E, vComp, ii, jj - 1).Add(GatherRow(tr, base, p, E, vComp, ii, jj - 1, 3))
  }

  /** the terms with ii' < ii; GatherBox(.., 3) is the sum over the whole stencil */
  function GatherBox(tr: Transfer, base: Cell, p: Vec3, E: array4<real>, vComp: int, ii: int): Vec3
    reads E
    requires GatherArgs(tr, base, E, vComp)
    requires -2 <= ii <= 3
    decreases ii + 2
  {
    if ii == -2 then Zero
    else GatherBox(tr, base, p, E, vComp, ii - 1).Add(GatherPlane(tr, base, p, E, vComp, ii - 1, 3))
  }

  // The gather depends on the field only through the velocity components it reads.

  /** B has one entry per cell of the fab E */
  predicate FabShaped(B: seq<seq<seq<Vec3>>>, E: array4<real>) {
    && |B| == E.Length0
    && (forall a :: 0 <= a < |B| ==> |B[a]| == E.Length1)
    && (forall a, b :: 0 <= a < |B| && 0 <= b < |B[a]| ==> |B[a][b]| == E.Length2)
  }

  /** the components vComp .. vComp + 2 of every cell of the fab, as a value */
  function VelocityBlock(E: array4<real>, vComp: int): (B: seq<seq<seq<Vec3>>>)
    reads E
    requires 0 <= vComp && vComp + 3 <= E.Length3
    ensures FabShaped(B, E)
    ensures forall a, b, c :: 0 <= a < E.Length0 && 0 <= b < E.Length1 && 0 <= c < E.Length2 ==>
              B[a][b][c] == Vec3(E[a, b, c, vComp], E[a, b, c, vComp + 1], E[a, b, c, vComp + 2])
  {
    seq(E.Length0, a requires 0 <= a < E.Length0 reads E =>
      seq(E.Length1, b requires 0 <= b < E.Length1 reads E =>
        seq(E.Length2, c requires 0 <= c < E.Length2 reads E =>
          Vec3(E[a, b, c, vComp], E[a, b, c, vComp + 1], E[a, b, c, vComp + 2]))))
  }

  /** FieldAt read from a velocity block */
  function BlockAt(tr: Transfer, base: Cell, E: array4<real>, B: seq<seq<seq<Vec3>>>, o: Cell): Vec3
    requires StencilInside(E, tr.lo, base) && FabShaped(B, E) && InStencil(o)
  {
    var node := NodeAt(base, o);
    B[node.i - tr.lo.i][node.j - tr.lo.j][node.k - tr.lo.k]
  }

  /** GatherRow on a velocity block */
  function RowOf(tr: Transfer, base: Cell, p: Vec3, E: array4<real>, B: seq<seq<seq<Vec3>>>, ii: int, jj: int, kk: int): Vec3
    requires tr.Valid() && StencilInside(E, tr.lo, base) && FabShaped(B, E)
    requires -2 <= ii <= 2 && -2 <= jj <= 2 && -2 <= kk <= 3
    decreases kk + 2
  {
    if kk == -2 then Zero
    else RowOf(tr, base, p, E, B, ii, jj, kk - 1).Add(WeightedField(tr, base, p, BlockAt(tr, base, E, B, Cell(ii, jj, kk - 1)), Cell(ii, jj, kk - 1)))
  }

  /** GatherPlane on a velocity block */
  function PlaneOf(tr: Transfer, base: Cell, p: Vec3, E: array4<real>, B: seq<seq<seq<Vec3>>>, ii: int, jj: int): Vec3
    requires tr.Valid() && StencilInside(E, tr.lo, base) && FabShaped(B, E)
    requires -2 <= ii <= 2 && -2 <= jj <= 3
    decreases jj + 2
  {
    if jj == -2 then Zero
    else PlaneOf(tr, base, p, E, B, ii, jj - 1).Add(RowOf(tr, base, p, E, B, ii, jj - 1, 3))
  }

  /** GatherBox on a velocity block */
  function BoxOf(tr: Transfer, base: Cell, p: Vec3, E: array4<real>, B: seq<seq<seq<Vec3>>>, ii: int): Vec3
    requires tr.Valid() && StencilInside(E, tr.lo, base) && FabShaped(B, E)
    requires -2 <= ii <= 3
    decreases ii + 2
  {
    if ii == -2 then Zero
    else BoxOf(tr, base, p, E, B, ii - 1).Add(PlaneOf(tr, base, p, E, B, ii - 1, 3))
  }

  /** B holds the components vComp .. vComp + 2 of every cell of E */
  predicate BlockOf(B: seq<seq<seq<Vec3>>>, E: array4<real>, vComp: int)
    reads E
    requires 0 <= vComp && vComp + 3 <= E.Length3
  {
    && FabShaped(B, E)
    && forall a, b, c :: 0 <= a < E.Length0 && 0 <= b < E.Length1 && 0 <= c < E.Length2 ==>
         B[a][b][c] == Vec3(E[a, b, c, vComp], E[a, b, c, vComp + 1], E[a, b, c, vComp + 2])
  }

  lemma {:induction false} BoxOfBlock(tr: Transfer, base: Cell, p: Vec3, E: array4<real>, vComp: int, B: seq<seq<seq<Vec3>>>, ii: int)
    requires GatherArgs(tr, base, E, vComp) && BlockOf(B, E, vComp) && -2 <= ii <= 3
    ensures GatherBox(tr, base, p, E, vComp, ii) == BoxOf(tr, base, p, E, B, ii)
    decreases ii + 2
  {
    if ii != -2 {
      BoxOfBlock(tr, base, p, E, vComp, B, ii - 1);
      PlaneOfBlock(tr, base, p, E, vComp, B, ii - 1, 3);
    }
  }

  lemma {:induction false} PlaneOfBlock(tr: Transfer, base: Cell, p: Vec3, E: array4<real>, vComp: int, B: seq<seq<seq<Vec3>>>, ii: int, jj: int)
    requires GatherArgs(tr, base, E, vComp) && BlockOf(B, E, vComp) && -2 <= ii <= 2 && -2 <= jj <= 3
    ensures GatherPlane(tr, base, p, E, vComp, ii, jj) == PlaneOf(tr, base, p, E, B, ii, jj)
    decreases jj + 2
  {
    if jj != -2 {
      PlaneOfBlock(tr, base, p, E, vComp, B, ii, jj - 1);
      assert GatherRow(tr, base, p, E, vComp, ii, jj - 1, 3) == RowOf(tr, base, p, E, B, ii, jj - 1, 3) by { RowOfBlock(tr, base, p, E, vComp, B, ii, jj - 1, 3); }
    }
  }

  lemma {:induction false} RowOfBlock(tr: Transfer, base: Cell, p: Vec3, E: array4<real>, vComp: int, B: seq<seq<seq<Vec3>>>, ii: int, jj: int, kk: int)
    requires GatherArgs(tr, base, E, vComp) && BlockOf(B, E, vComp) && -2 <= ii <= 2 && -2 <= jj <= 2 && -2 <= kk <= 3
    ensures GatherRow(tr, base, p, E, vComp, ii, jj, kk) == RowOf(tr, base, p, E, B, ii, jj, kk)
    decreases kk + 2
  {
    if kk != -2 {
      RowOfBlock(tr, base, p, E, vComp, B, ii, jj, kk - 1);
      var o := Cell(ii, jj, kk - 1);
      assert BlockAt(tr, base, E, B, o) == FieldAt(tr, base, E, vComp, o);
    }
  }

  /** `VelocityInterpolation_cir(p, Up, Vp, Wp, E, EularVIndex, plo, dx, type)`: the outputs
      start at 0 and end as the sum over the 125 stencil nodes of `weight * E(node, vComp + c) * d`;
      the field is only read. */
  method VelocityInterpolationCir(tr: Transfer, p: Vec3, E: array4<real>, vComp: int) returns (up: real, vp: real, wp: real)
    requires tr.Valid() && 0 <= vComp && vComp + 3 <= E.Length3
    requires StencilInside(E, tr.lo, BaseCell(tr.geom, p))
    ensures Vec3(up, vp, wp) == GatherBox(tr, BaseCell(tr.geom, p), p, E, vComp, 3)
  {
    var base := BaseCell(tr.geom, p);
    up, vp, wp := GatherAround(tr, base, p, E, vComp);
  }

  /** the stencil loops of VelocityInterpolationCir once the base cell is known */
  method GatherAround(tr: Transfer, base: Cell, p: Vec3, E: array4<real>, vComp: int) returns (up: real, vp: real, wp: real)
    requires GatherArgs(tr, base, E, vComp)
    ensures Vec3(up, vp, wp) == GatherBox(tr, base, p, E, vComp, 3)
  {
    up, vp, wp := 0.0, 0.0, 0.0;
    for ii := -2 to 3
      invariant Vec3(up, vp, wp) == GatherBox(tr, base, p, E, vComp, ii)
    {
      for jj := -2 to 3
        invariant Vec3(up, vp, wp) == GatherBox(tr, base, p, E, vComp, ii).Add(GatherPlane(tr, base, p, E, vComp, ii, jj))
      {
        ghost var sum := Vec3(up, vp, wp);
        up, vp, wp := GatherRowInto(tr, base, p, E, vComp, ii, jj, up, vp, wp);
        PlaneStep(tr, base, p, E, vComp, ii, jj, sum, Vec3(up, vp, wp));
      }
    }
  }

  /** Adding row (ii, jj) to the sum of the earlier planes and rows gives the sum before (ii, jj + 1). */
  lemma PlaneStep(tr: Transfer, base: Cell, p: Vec3, E: array4<real>, vComp: int, ii: int, jj: int, sum: Vec3, next: Vec3)
    requires GatherArgs(tr, base, E, vComp) && -2 <= ii <= 2 && -2 <= jj <= 2
    requires sum == GatherBox(tr, base, p, E, vComp, ii).Add(GatherPlane(tr, base, p, E, vComp, ii, jj))
    requires next == sum.Add(GatherRow(tr, base, p, E, vComp, ii, jj, 3))
    ensures next == GatherBox(tr, base, p, E, vComp, ii).Add(GatherPlane(tr, base, p, E, vComp, ii, jj + 1))
  {
  }

  /** the innermost loop, over kk, of the gather: adds row (ii, jj) to the running sums */
  method GatherRowInto(tr: Transfer, base: Cell, p: Vec3, E: array4<real>, vComp: int, ii: int, jj: int,
                       up0: real, vp0: real, wp0: real) returns (up: real, vp: real, wp: real)
    requires GatherArgs(tr, base, E, vComp) && -2 <= ii <= 2 && -2 <= jj <= 2
    ensures Vec3(up, vp, wp) == Vec3(up0, vp0, wp0).Add(GatherRow(tr, base, p, E, vComp, ii, jj, 3))
  {
    ghost var start := Vec3(up0, vp0, wp0);
    up, vp, wp := up0, vp0, wp0;
    for kk := -2 to 3
      invariant Vec3(up, vp, wp) == start.Add(GatherRow(tr, base, p, E, vComp, ii, jj, kk))
    {
      var add := GatherNode(tr, base, p, E, vComp, Cell(ii, jj, kk));
      RowStep(tr, base, p, E, vComp, ii, jj, kk, add, start, Vec3(up, vp, wp));
      up, vp, wp := up + add.x, vp + add.y, wp + add.z;
    }
  }

  /** One visit of the gather's loops: the weight `tU * tV * tW` of the node at offset o and
      the three products `delta_value * E(node, vComp + c) * d` that are added to Up, Vp, Wp. */
  method GatherNode(tr: Transfer, base: Cell, p: Vec3, E: array4<real>, vComp: int, o: Cell) returns (add: Vec3)
    requires GatherArgs(tr, base, E, vComp) && InStencil(o)
    ensures add == GatherTerm(tr, base, p, E, vComp, o)
  {
    var g := tr.geom;
    var d := CellVolume(g);
    var i, j, k := base.i, base.j, base.k;
    var xi := NodeCoord(i + o.i, g.dx.x);
    var yj := NodeCoord(j + o.j, g.dx.y);
    var kz := NodeCoord(k + o.k, g.dx.z);
    var tU := tr.delta(p.x, xi, g.dx.x);
    var tV := tr.delta(p.y, yj, g.dx.y);
    var tW := tr.delta(p.z, kz, g.dx.z);
    var w := tU * tV * tW;
    var a0, b0, c0 := i + o.i - tr.lo.i, j + o.j - tr.lo.j, k + o.k - tr.lo.k;
    var e := Vec3(E[a0, b0, c0, vComp], E[a0, b0, c0, vComp + 1], E[a0, b0, c0, vComp + 2]);
    add := Vec3(w * e.x * d, w * e.y * d, w * e.z * d);
    WeightOfFactors(tr, p, NodeAt(base, o), tU, tV, tW);
    assert e == FieldAt(tr, base, E, vComp, o);
    TermOfFactors(tr, base, p, E, vComp, o, w, e, add);
  }

  /** Visiting (ii, jj, kk) adds that offset's term to the running sum. */
  lemma RowStep(tr: Transfer, base: Cell, p: Vec3, E: array4<real>, vComp: int,
                ii: int, jj: int, kk: int, add: Vec3, start: Vec3, sum: Vec3)
    requires GatherArgs(tr, base, E, vComp) && InStencil(Cell(ii, jj, kk))
    requires add == GatherTerm(tr, base, p, E, vComp, Cell(ii, jj, kk))
    requires sum == start.Add(GatherRow(tr, base, p, E, vComp, ii, jj, kk))
    ensures sum.Add(add) == start.Add(GatherRow(tr, base, p, E, vComp, ii, jj, kk + 1))
  {
  }

  /** the loops' `tU * tV * tW` at a node is the node's Weight */
  lemma WeightOfFactors(tr: Transfer, p: Vec3, node: Cell, tU: real, tV: real, tW: real)
    requires tr.Valid()
    requires tU == tr.delta(p.x, NodeCoord(node.i, tr.geom.dx.x), tr.geom.dx.x)
    requires tV == tr.delta(p.y, NodeCoord(node.j, tr.geom.dx.y), tr.geom.dx.y)
    requires tW == tr.delta(p.z, NodeCoord(node.k, tr.geom.dx.z), tr.geom.dx.z)
    ensures tU * tV * tW == Weight(tr, p, node)
  {
  }

  lemma TermOfFactors(tr: Transfer, base: Cell, p: Vec3, E: array4<real>, vComp: int, o: Cell, w: real, e: Vec3, add: Vec3)
    requires GatherArgs(tr, base, E, vComp) && InStencil(o)
    requires w == Weight(tr, p, NodeAt(base, o)) && e == FieldAt(tr, base, E, vComp, o)
    requires var d := CellVolume(tr.geom);
             add == Vec3(w * e.x * d, w * e.y * d, w * e.z * d)
    ensures add == GatherTerm(tr, base, p, E, vComp, o)
  {
  }

  // ---------------------------------------------------------------------------------------
  // Spreading and interpolation are transposes of each other

  /** The entries of stencil offset o paired with what spreading f adds to them:
      the sum over c of SpreadIncrement(node, fComp + c) * E(node, vComp + c). */
  function PairTerm(tr: Transfer, base: Cell, p: Vec3, f: Vec3, fComp: int, E: array4<real>, vComp: int, o: Cell): real
    reads E
    requires GatherArgs(tr, base, E, vComp) && InStencil(o)
  {
    var node := NodeAt(base, o);
    var a, b, c := node.i - tr.lo.i, node.j - tr.lo.j, node.k - tr.lo.k;
    SpreadIncrement(tr, base, p, f, fComp, a, b, c, fComp) * E[a, b, c, vComp]
    + SpreadIncrement(tr, base, p, f, fComp, a, b, c, fComp + 1) * E[a, b, c, vComp + 1]
    + SpreadIncrement(tr, base, p, f, fComp, a, b, c, fComp + 2) * E[a, b, c, vComp + 2]
  }

  function PairRow(tr: Transfer, base: Cell, p: Vec3, f: Vec3, fComp: int, E: array4<real>, vComp: int,
                   ii: int, jj: int, kk: int): real
    reads E
    requires GatherArgs(tr, base, E, vComp)
    requires -2 <= ii <= 2 && -2 <= jj <= 2 && -2 <= kk <= 3
    decreases kk + 2
  {
    if kk == -2 then 0.0
    else PairRow(tr, base, p, f, fComp, E, vComp, ii, jj, kk - 1) + PairTerm(tr, base, p, f, fComp, E, vComp, Cell(ii, jj, kk - 1))
  }

  function PairPlane(tr: Transfer, base: Cell, p: Vec3, f: Vec3, fComp: int, E: array4<real>, vComp: int,
                     ii: int, jj: int): real
    reads E
    requires GatherArgs(tr, base, E, vComp)
    requires -2 <= ii <= 2 && -2 <= jj <= 3
    decreases jj + 2
  {
    if jj == -2 then 0.0
    else PairPlane(tr, base, p, f, fComp, E, vComp, ii, jj - 1) + PairRow(tr, base, p, f, fComp, E, vComp, ii, jj - 1, 3)
  }

  /** PairBox(.., 3) is the inner product of what spreading f adds with the field block from
      vComp on, over the stencil, which is where spreading adds anything at all. */
  function PairBox(tr: Transfer, base: Cell, p: Vec3, f: Vec3, fComp: int, E: array4<real>, vComp: int, ii: int): real
    reads E
    requires GatherArgs(tr, base, E, vComp)
    requires -2 <= ii <= 3
    decreases ii + 2
  {
    if ii == -2 then 0.0
    else PairBox(tr, base, p, f, fComp, E, vComp, ii - 1) + PairPlane(tr, base, p, f, fComp, E, vComp, ii - 1, 3)
  }

  /** The discrete adjoint identity of the immersed-boundary transfer: pairing the field with
      what ForceSpreadingCic adds for a quantity f gives f dotted with what
      VelocityInterpolationCir returns from the same field, for any field. */
  lemma SpreadInterpolateAdjoint(tr: Transfer, p: Vec3, f: Vec3, fComp: int, E: array4<real>, vComp: int)
    requires tr.Valid() && GatherArgs(tr, BaseCell(tr.geom, p), E, vComp)
    ensures PairBox(tr, BaseCell(tr.geom, p), p, f, fComp, E, vComp, 3) == f.Dot(GatherBox(tr, BaseCell(tr.geom, p), p, E, vComp, 3))
  {
    AdjointBox(tr, BaseCell(tr.geom, p), p, f, fComp, E, vComp, 3);
  }

  lemma {:induction false} AdjointBox(tr: Transfer, base: Cell, p: Vec3, f: Vec3, fComp: int, E: array4<real>, vComp: int, ii: int)
    requires GatherArgs(tr, base, E, vComp) && -2 <= ii <= 3
    ensures PairBox(tr, base, p, f, fComp, E, vComp, ii) == f.Dot(GatherBox(tr, base, p, E, vComp, ii))
    decreases ii + 2
  {
    if ii > -2 {
      AdjointBox(tr, base, p, f, fComp, E, vComp, ii - 1);
      AdjointPlane(tr, base, p, f, fComp, E, vComp, ii - 1, 3);
      DotAdd(f, GatherBox(tr, base, p, E, vComp, ii - 1), GatherPlane(tr, base, p, E, vComp, ii - 1, 3));
    }
  }

  lemma {:induction false} AdjointPlane(tr: Transfer, base: Cell, p: Vec3, f: Vec3, fComp: int, E: array4<real>, vComp: int,
                                        ii: int, jj: int)
    requires GatherArgs(tr, base, E, vComp) && -2 <= ii <= 2 && -2 <= jj <= 3
    ensures PairPlane(tr, base, p, f, fComp, E, vComp, ii, jj) == f.Dot(GatherPlane(tr, base, p, E, vComp, ii, jj))
    decreases jj + 2
  {
    if jj > -2 {
      AdjointPlane(tr, base, p, f, fComp, E, vComp, ii, jj - 1);
      AdjointRow(tr, base, p, f, fComp, E, vComp, ii, jj - 1, 3);
      DotAdd(f, GatherPlane(tr, base, p, E, vComp, ii, jj - 1), GatherRow(tr, base, p, E, vComp, ii, jj - 1, 3));
    }
  }

  lemma {:induction false} AdjointRow(tr: Transfer, base: Cell, p: Vec3, f: Vec3, fComp: int, E: array4<real>, vComp: int,
                                      ii: int, jj: int, kk: int)
    requires GatherArgs(tr, base, E, vComp) && -2 <= ii <= 2 && -2 <= jj <= 2 && -2 <= kk <= 3
    ensures PairRow(tr, base, p, f, fComp, E, vComp, ii, jj, kk) == f.Dot(GatherRow(tr, base, p, E, vComp, ii, jj, kk))
    decreases kk + 2
  {
    if kk > -2 {
      AdjointRow(tr, base, p, f, fComp, E, vComp, ii, jj, kk - 1);
      AdjointTerm(tr, base, p, f, fComp, E, vComp, Cell(ii, jj, kk - 1));
      DotAdd(f, GatherRow(tr, base, p, E, vComp, ii, jj, kk - 1), GatherTerm(tr, base, p, E, vComp, Cell(ii, jj, kk - 1)));
    }
  }

  /** at one node: sum_c (w f_c d) e_c == f . (w e d) */
  lemma AdjointTerm(tr: Transfer, base: Cell, p: Vec3, f: Vec3, fComp: int, E: array4<real>, vComp: int, o: Cell)
    requires GatherArgs(tr, base, E, vComp) && InStencil(o)
    ensures PairTerm(tr, base, p, f, fComp, E, vComp, o) == f.Dot(GatherTerm(tr, base, p, E, vComp, o))
  {
    var node := NodeAt(base, o);
    var a, b, c := node.i - tr.lo.i, node.j - tr.lo.j, node.k - tr.lo.k;
    assert NodeOf(tr.lo, a, b, c) == node;
    assert OffsetFrom(base, node) == o;
    var w := Weight(tr, p, node);
    var d := CellVolume(tr.geom);
    var e := FieldAt(tr, base, E, vComp, o);
    ScaledPairing(w, d, f, e);
  }

  lemma ScaledPairing(w: real, d: real, f: Vec3, e: Vec3)
    ensures w * f.x * d * e.x + w * f.y * d * e.y + w * f.z * d * e.z == f.Dot(Vec3(w * e.x * d, w * e.y * d, w * e.z * d))
  {
  }

  lemma DotAdd(f: Vec3, a: Vec3, b: Vec3)
    ensures f.Dot(a.Add(b)) == f.Dot(a) + f.Dot(b)
  {
  }

  // ---------------------------------------------------------------------------------------
  // Spreading many markers

  /** a marker's position and the quantity spread from it */
  datatype Source = Source(p: Vec3, f: Vec3)

  /** what spreading the sources one after the other adds to entry E[a, b, c, n] */
  function SpreadAll(tr: Transfer, s: seq<Source>, fComp: int, a: int, b: int, c: int, n: int): real
    requires tr.Valid()
    decreases |s|
  {
    if |s| == 0 then 0.0
    else
      var last := s[|s| - 1];
      SpreadAll(tr, s[..|s| - 1], fComp, a, b, c, n) + SpreadIncrement(tr, BaseCell(tr.geom, last.p), last.p, last.f, fComp, a, b, c, n)
  }

  /** Spreading any number of sources changes only the three components from fComp on. */
  lemma {:induction false} SpreadAllOffBlock(tr: Transfer, s: seq<Source>, fComp: int, a: int, b: int, c: int, n: int)
    requires tr.Valid() && !(fComp <= n < fComp + 3)
    ensures SpreadAll(tr, s, fComp, a, b, c, n) == 0.0
    decreases |s|
  {
    if |s| > 0 {
      SpreadAllOffBlock(tr, s[..|s| - 1], fComp, a, b, c, n);
    }
  }

  /** Spreading is pure accumulation: the order of the markers does not change the field. */
  lemma {:induction false} SpreadAllPermutation(tr: Transfer, s: seq<Source>, t: seq<Source>, fComp: int, a: int, b: int, c: int, n: int)
    requires tr.Valid() && multiset(s) == multiset(t)
    ensures SpreadAll(tr, s, fComp, a, b, c, n) == SpreadAll(tr, t, fComp, a, b, c, n)
    decreases |s|
  {
    if |s| == 0 {
      assert |t| == |multiset(t)| == 0;
    } else {
      var last := s[|s| - 1];
      assert last in multiset(s);
      assert last in multiset(t);
      var i :| 0 <= i < |t| && t[i] == last;
      var rest := t[..i] + t[i + 1..];
      RemoveMatching(s, t, i);
      SpreadAllPermutation(tr, s[..|s| - 1], rest, fComp, a, b, c, n);
      SpreadAllRemove(tr, t, i, fComp, a, b, c, n);
    }
  }

  /** Taking source i out of the sequence takes its increment out of the sum. */
  lemma {:induction false} SpreadAllRemove(tr: Transfer, t: seq<Source>, i: int, fComp: int, a: int, b: int, c: int, n: int)
    requires tr.Valid() && 0 <= i < |t|
    ensures SpreadAll(tr, t, fComp, a, b, c, n)
            == SpreadAll(tr, t[..i] + t[i + 1..], fComp, a, b, c, n)
               + SpreadIncrement(tr, BaseCell(tr.geom, t[i].p), t[i].p, t[i].f, fComp, a, b, c, n)
    decreases |t|
  {
    var rest := t[..i] + t[i + 1..];
    if i == |t| - 1 {
      assert rest == t[..|t| - 1];
    } else {
      var front := t[..|t| - 1];
      SpreadAllRemove(tr, front, i, fComp, a, b, c, n);
      assert rest[..|rest| - 1] == front[..i] + front[i + 1..];
      assert rest[|rest| - 1] == t[|t| - 1];
    }
  }

  /** Taking the last element out of s and a matching element out of t keeps the two
      sequences permutations of each other. */
  lemma RemoveMatching<T>(s: seq<T>, t: seq<T>, i: int)
    requires multiset(s) == multiset(t) && |s| > 0 && 0 <= i < |t| && t[i] == s[|s| - 1]
    ensures multiset(t[..i] + t[i + 1..]) == multiset(s[..|s| - 1])
  {
    assert s == s[..|s| - 1] + [s[|s| - 1]];
    assert t == t[..i] + [t[i]] + t[i + 1..];
    calc {
      multiset(t[..i] + t[i + 1..]);
      multiset(t[..i]) + multiset(t[i + 1..]);
      multiset(t) - multiset{t[i]};
      multiset(s) - multiset{s[|s| - 1]};
      multiset(s[..|s| - 1]);
    }
  }
}
