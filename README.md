# Immersed-boundary particle coupling and grid metrics, modelled in Dafny

This project models two parts of an incompressible-flow solver. The first is its
diffused-immersed-boundary coupling (Source/DiffusedIB.cpp). The second is its grid-metrics
helper `CoordSys` (CoordSys.cpp).

**Immersed-boundary coupling.** Rigid spheres ("kernels") carry Lagrangian markers on their
surfaces. A time step of `mParticle::InteractWithEuler` does four things for each body:

- it places the markers on a spiral over the sphere (`InitialWithLargrangianPoints`);
- it advances the body from the net marker force and moment (`UpdateParticles`);
- it runs the multidirect-forcing loop while the shared counter `loop_time` is positive. The
  counter is never reset, so in effect only the first body makes passes (see below). Each pass clears the Eulerian force
  block, interpolates the fluid velocity to the markers, computes the direct forcing
  `(U_b - U_p) / dt`, spreads it back over a 5 x 5 x 5 stencil of the regularised delta
  function (`deltaFunction`), and adds `dt * F` to the velocity block;
- it returns when it is done.

`InitParticles` creates the kernels and the markers.

**Grid metrics.** `CoordSys` gives the physical position of the cell centres, edges, faces and
nodes of a uniform grid. It also gives the (truncating) cell index of a point, the 1-D edge
and cell location arrays, the RZ volume coordinate `r^2 / 2`, and the cell volume and face
areas.

## Files and modules

- `mathlib.dfy` (`MathLib`):
  - the host math library as a value, `Libm` (sqrt, acos, sin, cos, fmod, atan, pi), with the
    laws some proofs assume (`SqrtLaws`, `TrigLaws`);
  - C's truncating conversion to `int`.
- `vectors.dfy` (`Vectors`): three-vectors (`RealVect`) and integer cells.
- `real_arith.dfy` (`RealArith`): non-linear real-arithmetic facts the solver needs as explicit
  steps.
- `delta_kernel.dfy` (`DeltaKernel`): `deltaFunction`.
- `particle_mesh.dfy` (`ParticleMesh`): `ForceSpreading_cic` and `VelocityInterpolation_cir`
  on one fab `array4<real>`, and the accumulation of many markers.
- `diffused_ib.dfy` (`DiffusedIB`): the bodies and markers as values:
  - `cal_momentum`;
  - the marker count and volume of `InitParticles`;
  - the marker spiral;
  - the direct forcing;
  - the body update of `UpdateParticles`.
- `mparticle.dfy` (`Particles`): the class `MParticle` with the kernels, the marker arrays
  `pos`/`attr`, and the member functions of `mParticle` as methods.
- `coord_sys.dfy` (`Coords`): the classes `CoordStatics` (the statics `c_sys`, `offset` and
  `BL_SPACEDIM`) and `CoordSys` (its `dx` and `ok`).

## Behaviour modelled as written

- `ForceSpreading` reads the marker velocities `U/V/W`, not the forces `Fx/Fy/Fz`
  (DiffusedIB.cpp:342-344). `ParticleMesh.SpreadAll` is fed `MarkerSources(pos, attr)`, whose
  quantity is the marker velocity.
- The stencil node coordinate is `(i + ii) * dx + dx / 2`, without `plo`
  (DiffusedIB.cpp:118-120 and 159-161). The base cell is `floor((pos - plo) / dx)`.
- `loop_time` is a parameter and is decremented to 0 by the first body. It is never reset, so
  only the first body runs the correction loop (`runs[b]` in `InteractWithEuler` is the
  number of passes body b made, including a body that stopped with `OutOfBox`).
- All bodies share one tile of markers. `InitialWithLargrangianPoints` overwrites the first
  `ml` markers. `UpdateParticles`, `ComputeLagrangianForce`, `VelocityInterpolation` and
  `ForceSpreading` act on every marker of the tile.
- In `UpdateParticles` the marker's new force uses the new body centre but the marker's old
  position (DiffusedIB.cpp:412-420).
- The four-point kernel has no branch for `0.5 <= rr < 1`, so it is 0 there
  (DiffusedIB.cpp:69-75). `DeltaSupport` and `FourPointPositive` state this.
- `CellIndex`, `LowerIndex` and `UpperIndex` have the same body. Their `(int)` cast truncates
  toward zero, so for a negative cell the centre's index is the cell above it (`CenterIndex`).

## Model

| member | source | states |
|---|---|---|
| MathLib.TruncToInt | CoordSys.cpp:245 | `(int) x` truncates toward zero: n <= x < n + 1 for x >= 0, and n - 1 < x <= n for x < 0 |
| DeltaKernel.Distance | Source/DiffusedIB.cpp:65 | rr = \|(xf - xp) / h\| is never negative |
| DeltaKernel.BranchOf | Source/DiffusedIB.cpp:67-88 | the default (zero) branch is taken exactly for rr >= 2 and, for the four-point kernel, for 0.5 <= rr < 1 |
| DeltaKernel.KernelWeight | Source/DiffusedIB.cpp:67-88 | on the default branch the weight is 0 |
| DeltaKernel.DeltaFunction | Source/DiffusedIB.cpp:62-89 | the value is 0 whenever the distance selects the default branch |
| DeltaKernel.DeltaSupport | Source/DiffusedIB.cpp:68-76 | both kernels vanish from two cells on; the four-point kernel also vanishes on [0.5, 1) |
| DeltaKernel.DeltaSymmetric | Source/DiffusedIB.cpp:65 | exchanging node and marker gives the same weight |
| DeltaKernel.FourPointRootArguments | Source/DiffusedIB.cpp:70-72 | both four-point square-root arguments are at least 1 on their branches |
| DeltaKernel.FourPointPositive | Source/DiffusedIB.cpp:68-76 | with a true sqrt and h > 0, the four-point weight is >= 0, and > 0 exactly for rr < 0.5 or 1 <= rr < 2 |
| DeltaKernel.FourPointWeightPositive | Source/DiffusedIB.cpp:69-75 | the same for the distance itself |
| DeltaKernel.InnerCasePositive | Source/DiffusedIB.cpp:69-70 | the inner four-point branch is positive |
| DeltaKernel.OuterCasePositive | Source/DiffusedIB.cpp:71-72 | the outer four-point branch is positive |
| DeltaKernel.OuterRootBelow | Source/DiffusedIB.cpp:72 | on [1, 2) the outer root stays below 5 - 2 rr, so the weight does not go negative |
| ParticleMesh.BaseCell | Source/DiffusedIB.cpp:105-111 | the base cell `floor((pos - plo) / dx)` in each direction; BaseCellHoldsMarker proves it holds the marker |
| ParticleMesh.NodeCoord | Source/DiffusedIB.cpp:118-120 | the stencil node coordinate `n dx + dx / 2`, without `plo` |
| ParticleMesh.CellVolume | Source/DiffusedIB.cpp:103 | `d = dx[0] dx[1] dx[2]`, the cell volume that scales every spread increment (ForceSpreadingCic) and every interpolated term (GatherNode); line 141 is the same constant |
| ParticleMesh.Weight | Source/DiffusedIB.cpp:121-124 | `tU tV tW`: the product of the three one-dimensional deltaFunction weights between the marker and a stencil node |
| ParticleMesh.BaseCellHoldsMarker | Source/DiffusedIB.cpp:105-111 | the base cell `floor((pos - plo) / dx)` holds the marker: i <= lx < i + 1 in each direction |
| ParticleMesh.ForceSpreadingCic | Source/DiffusedIB.cpp:91-131 | every fab entry grows by exactly its SpreadIncrement, `tU tV tW f_c d` on the 125 stencil nodes and the three components from `EularFIndex`; every other component and every node off the stencil is unchanged |
| ParticleMesh.AddAtNode | Source/DiffusedIB.cpp:125-127 | the three adds touch exactly the three components of one node |
| ParticleMesh.VelocityInterpolationCir | Source/DiffusedIB.cpp:133-172 | (Up, Vp, Wp) is the weighted stencil sum GatherBox over the 125 nodes, in loop order |
| ParticleMesh.GatherBox | Source/DiffusedIB.cpp:155-171 | the stencil sum `tU tV tW E(node, c) d` over the nodes the ii loop has visited, in loop order; GatherAround proves the loops compute it and SpreadInterpolateAdjoint pairs it with spreading |
| ParticleMesh.GatherAround | Source/DiffusedIB.cpp:151-171 | the three nested loops from zero compute GatherBox |
| ParticleMesh.GatherRowInto | Source/DiffusedIB.cpp:157-169 | the innermost loop adds one row of the stencil sum |
| ParticleMesh.GatherNode | Source/DiffusedIB.cpp:158-168 | one node's term is `tU tV tW E(node, c) d` |
| ParticleMesh.SpreadInterpolateAdjoint | Source/DiffusedIB.cpp:91-172 | spreading and interpolation are transposes: the spread increments paired with the field equal f · (interpolated field) |
| ParticleMesh.AdjointBox | Source/DiffusedIB.cpp:114-171 | the same pairing for every partial sum of the outer loop (induction over the loops) |
| ParticleMesh.SpreadAll | Source/DiffusedIB.cpp:353-356 | what spreading the markers one after another adds to one fab entry: the sum of their SpreadIncrements in marker order; the three lemmas below state its frame, its order independence and the removal of one marker |
| ParticleMesh.SpreadAllOffBlock | Source/DiffusedIB.cpp:353-356 | spreading any set of markers leaves every component outside the force block untouched |
| ParticleMesh.SpreadAllPermutation | Source/DiffusedIB.cpp:353-356 | the accumulated spreading does not depend on the order of the markers, which ParallelFor does not fix |
| ParticleMesh.SpreadAllRemove | Source/DiffusedIB.cpp:353-356 | taking a marker out of the set takes exactly its increment out of the sum |
| DiffusedIB.CalMomentum | Source/DiffusedIB.cpp:56-60 | `8 pi rho r^5 / 15` is two fifths of the sphere's mass `rho 4/3 pi r^3` times r^2 |
| DiffusedIB.InertiaPositive | Source/DiffusedIB.cpp:56-60 | a sphere of positive density and radius has positive moment of inertia |
| DiffusedIB.NonZeroInertia | Source/DiffusedIB.cpp:399-401 | the divisor `cal_momentum` of the omega update is non-zero for a non-zero density and radius |
| DiffusedIB.NonZeroVolume | Source/DiffusedIB.cpp:399 | the sphere-volume divisor of the velocity update is non-zero for a non-zero radius |
| DiffusedIB.MarkerCount | Source/DiffusedIB.cpp:230 | `Ml = (int)(pi / 3 * 12 (r / h)^2)` is the truncation of 4 pi (r / h)^2: Ml <= 4 pi q^2 < Ml + 1, and Ml >= 0 |
| DiffusedIB.MarkerVolume | Source/DiffusedIB.cpp:231 | `dv = pi h / 3 / Ml (12 r^2 + h^2)`, with `12 r^2` in integer arithmetic; MarkersFillShell proves Ml dv is the shell volume |
| DiffusedIB.MarkersFillShell | Source/DiffusedIB.cpp:231 | Ml markers of volume dv fill exactly the shell of thickness h around the sphere |
| DiffusedIB.ShellDifference | Source/DiffusedIB.cpp:231 | the shell volume is `pi h / 3 (12 r^2 + h^2)` |
| DiffusedIB.TrueRootsNonZero | Source/DiffusedIB.cpp:295 | with a true sqrt, neither divisor of the azimuth step is 0 for any interior marker |
| DiffusedIB.InteriorRoots | Source/DiffusedIB.cpp:295 | the same for one interior marker |
| DiffusedIB.Height | Source/DiffusedIB.cpp:290 | `Hk = -1 + 2 index / (ml - 1)`; HeightsEvenlySpaced and HeightInside state its range |
| DiffusedIB.Azimuth | Source/DiffusedIB.cpp:292-296 | the running phiK after marker index: 0 at both poles, otherwise the previous value advanced by `3.809 / sqrt(ml) / sqrt(1 - Hk^2)` modulo 2 pi; NextAzimuth computes one step of it |
| DiffusedIB.MarkerPosition | Source/DiffusedIB.cpp:291-300 | `location + r (sin t cos phi, sin t sin phi, cos t)` with `t = acos(Hk)`; MarkerOnSphere and MarkerHeight state where it lies |
| DiffusedIB.HeightInside | Source/DiffusedIB.cpp:290-295 | interior heights Hk lie strictly inside (-1, 1), so `1 - Hk^2 > 0` |
| DiffusedIB.HeightsEvenlySpaced | Source/DiffusedIB.cpp:290 | heights run from -1 (first marker) to 1 (last marker) in equal steps 2 / (ml - 1) |
| DiffusedIB.MarkerOnSphere | Source/DiffusedIB.cpp:298-300 | under sin^2 + cos^2 = 1 every placed marker lies on the body's sphere |
| DiffusedIB.MarkerHeight | Source/DiffusedIB.cpp:290-300 | with cos(acos x) = x a marker sits at height location.z + r Hk: the first at the south pole, the last at the north pole |
| DiffusedIB.LagrangianForce | Source/DiffusedIB.cpp:445-447 | the direct forcing is zero exactly when the marker moves with the body, and u + dt F equals the body velocity |
| DiffusedIB.NetForce | Source/DiffusedIB.cpp:392 | `ForceDv`, the sum of F Dv over the markers in order; SumForces computes it and ForceFreeSums gives its value without forces |
| DiffusedIB.NetMoment | Source/DiffusedIB.cpp:393-394 | `Moment`, the sum of `((pos - location) x F) Dv` over the markers in order |
| DiffusedIB.ForceFreeSums | Source/DiffusedIB.cpp:388-395 | markers without force give zero ForceDv and zero Moment |
| DiffusedIB.StepDefined | Source/DiffusedIB.cpp:398-401 | the divisors of the body update are non-zero: dt, pi, r, rho (through `cal_momentum`) and `rho - rho_f` |
| DiffusedIB.RefreshedForce | Source/DiffusedIB.cpp:412-417 | the force `rho_p / dt (u + omega x (location - pos))` of the second marker loop |
| DiffusedIB.SphereVolume | Source/DiffusedIB.cpp:399 | the divisor `pi 4 r^3 / 3` of the velocity update; NonZeroVolume proves it non-zero and CalMomentum relates the inertia to it |
| DiffusedIB.VelocityGain | Source/DiffusedIB.cpp:398-399 | the factor `2 alpha dt / (pi 4 r^3 / 3) / (rho - rho_f)` of ForceDv, defined under StepDefined |
| DiffusedIB.OmegaGain | Source/DiffusedIB.cpp:400-401 | the factor `2 alpha dt rho / cal_momentum(rho, r) / (rho - rho_f)` of Moment, defined under StepDefined |
| DiffusedIB.Displacement | Source/DiffusedIB.cpp:403-404 | `deltaX = alpha dt (v_new + v_old)`; BodyStep moves the centre by it and MoveMarkers moves every marker by it |
| DiffusedIB.BodyStep | Source/DiffusedIB.cpp:396-405 | the update keeps radius, ml, dv and rho, and moves the centre by `alpha dt (v_new + v_old)` |
| DiffusedIB.ForceFreeStep | Source/DiffusedIB.cpp:396-405 | a force-free body keeps its velocity and angular velocity and drifts by 2 alpha dt v |
| Particles.NewKernels | Source/DiffusedIB.cpp:233-252 | one kernel per point, at that location, at rest, with the shared radius, ml, dv and rho_s |
| Particles.MarkerSources | Source/DiffusedIB.cpp:342-355 | what each marker spreads is its position and its U/V/W attributes |
| Particles.PlacementsAt | Source/DiffusedIB.cpp:288-301 | the i-th placed position is MarkerPosition at the i-th azimuth of the running phiK recurrence |
| Particles.Interpolated | Source/DiffusedIB.cpp:325-328 | every marker's velocity becomes its stencil gather, and its force is kept |
| Particles.MParticle.constructor | Source/DiffusedIB.cpp:211-221 | the container `InitParticles` starts from: no kernels and no markers, on a geometry with non-zero spacing; the constructor itself comes from the header DiffusedIB.H, which is not part of this model |
| Particles.MParticle.TransferTo | Source/DiffusedIB.cpp:307-309 | the transfer uses the finest level's geometry |
| Particles.MParticle.InitParticles | Source/DiffusedIB.cpp:211-282 | sets the indices and rho_f; on unequal sizes returns with nothing else changed; otherwise appends NewKernels and Ml zero markers (positions and attributes) |
| Particles.MParticle.InitialWithLagrangianPoints | Source/DiffusedIB.cpp:284-302 | the first ml marker positions become Placements (the spiral), the rest are unchanged; ml <= 0 places nothing |
| Particles.MParticle.PlaceMarker | Source/DiffusedIB.cpp:290-300 | one pass of the loop: the running azimuth becomes Azimuth(index) and marker index moves to its sphere position at height Hk and that azimuth; no other marker moves |
| Particles.MParticle.NextAzimuth | Source/DiffusedIB.cpp:292-296 | phiK is 0 at the poles and otherwise `fmod(phiK + 3.809 / sqrt(ml) / sqrt(1 - Hk^2), 2 pi)` of the previous one |
| Particles.MParticle.VelocityInterpolation | Source/DiffusedIB.cpp:304-331 | the markers' attributes become Interpolated: each U/V/W is its VelocityInterpolation_cir, the forces are kept |
| Particles.MParticle.GatherOne | Source/DiffusedIB.cpp:327 | one marker's gather changes only that marker |
| Particles.MParticle.ForceSpreading | Source/DiffusedIB.cpp:333-358 | the fab grows by SpreadAll of every marker's (position, U/V/W) into the force block, and nothing outside that block changes |
| Particles.MParticle.SpreadOne | Source/DiffusedIB.cpp:355 | spreading marker i adds exactly the next term of SpreadAll |
| Particles.MParticle.ComputeLagrangianForce | Source/DiffusedIB.cpp:425-450 | every marker's force becomes LagrangianForce(body velocity, marker velocity, dt); velocities are kept |
| Particles.MParticle.UpdateParticles | Source/DiffusedIB.cpp:360-423 | the body becomes BodyStep of its net force and moment over the old markers; the positions become Moved by deltaX and the attributes Refreshed: each force is `rho / dt (u + omega x (location' - pos))` |
| Particles.MParticle.SumForces | Source/DiffusedIB.cpp:388-395 | the sums are NetForce and NetMoment of the markers |
| Particles.MParticle.MoveMarkers | Source/DiffusedIB.cpp:408-421 | each marker's force is refreshed and its position moved by deltaX |
| Particles.MParticle.CheckInside | Source/DiffusedIB.cpp:125-168 | the check holds exactly when every marker's stencil lies inside the fab |
| Particles.MParticle.ClearForce | Source/DiffusedIB.cpp:189-199 | the force block is 0 on the valid box; everything else is unchanged |
| Particles.MParticle.ZeroForce | Source/DiffusedIB.cpp:193-198 | the three force components are 0 on the valid box and every other entry keeps its value |
| Particles.MParticle.Saxpy | Source/DiffusedIB.cpp:205 | on the valid box, `V += dt F` componentwise; everything else is unchanged |
| Particles.Forced | Source/DiffusedIB.cpp:445-447 | each marker keeps its velocity, and its velocity plus dt times its new force is the body velocity |
| Particles.MParticle.CorrectionPass | Source/DiffusedIB.cpp:189-205 | one pass of the loop body: the markers become Forced(Interpolated(old field)); on the valid box the force block becomes what the markers spread and the velocity block grows by dt times the new force; in the ghost cells the force grows by the spread; nothing else changes; the state is Corrected |
| Particles.MParticle.ClearAndForce | Source/DiffusedIB.cpp:189-202 | the force block is 0 on the valid box, and the markers become Forced(Interpolated(field before the clearing)), so every force is the direct forcing to the body velocity |
| Particles.MParticle.SpreadAndCorrect | Source/DiffusedIB.cpp:203-205 | the force block grows by SpreadAll of the markers, then the valid velocity block grows by dt times the new force; nothing else changes |
| Particles.MParticle.CorrectionLoop | Source/DiffusedIB.cpp:187-207 | `while (loop_time > 0)` makes between 0 and max(loop_time, 0) passes, exactly max(loop_time, 0) when it completes, leaving loop_time at min(loop_time, 0); with no pass nothing changes, after the last pass the state is Corrected; a stencil leaving the fab stops it with OutOfBox; only the F and V blocks change |
| Particles.MParticle.PlaceAndUpdate | Source/DiffusedIB.cpp:182-184 | the body is Advanced: BodyStep of the net force over the tile and the net moment over the placed positions, and the positions become the placement Moved by its displacement; the attributes become Refreshed at the placement |
| Particles.MParticle.InteractOne | Source/DiffusedIB.cpp:180-207 | one body: Advanced as in PlaceAndUpdate; between 0 and max(loop_time, 0) passes; with no pass the field is unchanged and the markers keep the refreshed forces; otherwise the state is Corrected for the advanced body; only the F and V blocks change |
| Particles.MParticle.AdvanceBody | Source/DiffusedIB.cpp:180-207 | InteractOne through the reference `kernel`: entry b of the kernels becomes the advanced body and no other entry changes; the History of the first b bodies extends to b + 1 with the markers and positions it leaves and its pass count (MarkersAfter: Refreshed forces with no pass, Settled forces after one); with no pass the field is unchanged, after one the valid force block holds what the markers spread (SpreadHeld) |
| Particles.HistoryStep | Source/DiffusedIB.cpp:180-207 | a History of n bodies, followed by body n Advanced from the last markers and positions and leaving markers as MarkersAfter its passes say, is a History of n + 1 bodies |
| Particles.MParticle.InteractWithEuler | Source/DiffusedIB.cpp:178-209 | the bodies form a History that starts at the old markers and positions and ends at the new ones: body j becomes Advanced from the markers `tiles[j]` and positions `layouts[j]` left by body j - 1, and after its `runs[j]` passes leaves markers `tiles[j + 1]` with the refreshed forces (no pass) or the direct forcing to its new velocity (a pass); bodies after an OutOfBox stop are unchanged; the counter is shared, so only the first body makes passes, max(loop_time, 0) of them when it completes; with loop_time <= 0 the fab is unchanged, and after a pass of the first body its valid force block is what the markers `tiles[1]` at `layouts[1]` spread; the fab changes only in the F and V blocks |
| Coords.CoordStatics.constructor | CoordSys.cpp:20-21 | `c_sys` starts `undef`, `offset` starts at zero |
| Coords.CoordStatics.SetCoord | CoordSys.cpp:36-40 | sets `c_sys` |
| Coords.CoordStatics.SetOffset | CoordSys.cpp:42-49 | `offset` becomes exactly the first BL_SPACEDIM entries of `x_lo` |
| Coords.CoordStatics.IsRZ | CoordSys.cpp:51-61 | RZ only in two dimensions: in 3-D it is false; it implies not Cartesian |
| Coords.CoordStatics.IsCartesian | CoordSys.cpp:63-68 | true exactly when the (defined) coordinate kind is not RZ |
| Coords.CoordSys.Empty | CoordSys.cpp:75-78 | a default-constructed CoordSys is not ok |
| Coords.CoordSys.constructor | CoordSys.cpp:80-83 | constructing from spacings is `define` |
| Coords.CoordSys.Define | CoordSys.cpp:86-95 | sets ok and copies exactly BL_SPACEDIM spacings |
| Coords.CoordSys.CellCenter | CoordSys.cpp:117-123 | the centre `offset + dx (0.5 + point)` of a cell in one direction; EdgeGeometry proves it is the midpoint of LoEdge and HiEdge |
| Coords.CoordSys.LoEdge | CoordSys.cpp:125-139 | the low edge `offset + dx point`, for both the int and the IntVect overload |
| Coords.CoordSys.HiEdge | CoordSys.cpp:141-155 | the high edge `offset + dx (point + 1)`, for both overloads; EdgeGeometry proves it is LoEdge of the next cell |
| Coords.CoordSys.EdgeGeometry | CoordSys.cpp:118-155 | HiEdge - LoEdge = dx, HiEdge(p) = LoEdge(p + 1), and CellCenter is the midpoint of the edges |
| Coords.CoordSys.CellCenterAt | CoordSys.cpp:107-115 | every component is the scalar CellCenter; entries past BL_SPACEDIM are untouched |
| Coords.CoordSys.LoFace | CoordSys.cpp:166-176 | component dir is LoEdge and every other component is the cell centre |
| Coords.CoordSys.HiFace | CoordSys.cpp:187-197 | component dir is HiEdge and every other component is the cell centre |
| Coords.CoordSys.LoNode | CoordSys.cpp:208-216 | every component is LoEdge |
| Coords.CoordSys.HiNode | CoordSys.cpp:227-235 | every component is HiEdge (so HiNode - LoNode = dx by EdgeGeometry) |
| Coords.CoordSys.IndexOf | CoordSys.cpp:245 | one component of the index, `(int) ((x - offset) / dx)`, truncated toward zero; EdgeIndex, CenterIndex and CellContains state which cell it names |
| Coords.CoordSys.CellIndex | CoordSys.cpp:238-248 | every component is the truncated `(x - offset) / dx` |
| Coords.CoordSys.LowerIndex | CoordSys.cpp:251-261 | the same value as CellIndex |
| Coords.CoordSys.UpperIndex | CoordSys.cpp:264-274 | the same value as CellIndex |
| Coords.CoordSys.EdgeIndex | CoordSys.cpp:245 | the index of a cell's low edge is that cell, for every cell |
| Coords.CoordSys.CenterIndex | CoordSys.cpp:245 | the index of the centre of cell p is p for p >= 0, and p + 1 for p < 0 (truncation toward zero) |
| Coords.CoordSys.CellContains | CoordSys.cpp:245 | for dx > 0 and x >= offset, x lies between the low and high edge of the cell CellIndex names |
| Coords.CoordSys.GetEdgeLoc | CoordSys.cpp:350-366 | `hi - lo + 2` entries, entry i = LoEdge(lo + i) |
| Coords.CoordSys.GetCellLoc | CoordSys.cpp:369-385 | `hi - lo + 1` entries, entry i = CellCenter(lo + i) |
| Coords.CoordSys.VolCoord | CoordSys.cpp:392-405 | the volume coordinate `0.5 r r` in the radial direction of a 2-D RZ grid, and r itself in every other case |
| Coords.CoordSys.ToVolCoord | CoordSys.cpp:397-405 | each entry becomes r^2 / 2 in the radial direction of a 2-D RZ grid, and stays as it was otherwise |
| Coords.CoordSys.GetEdgeVolCoord | CoordSys.cpp:388-407 | the length of GetEdgeLoc, entry i = VolCoord(LoEdge(lo + i)) |
| Coords.CoordSys.GetCellVolCoord | CoordSys.cpp:410-429 | the length of GetCellLoc, entry i = VolCoord(CellCenter(lo + i)) |
| Coords.CoordSys.AreaLo | CoordSys.cpp:500-536 | in 3-D a direction other than 0, 1, 2 gives 0 |
| Coords.CoordSys.AreaHi | CoordSys.cpp:539-575 | in 3-D a direction other than 0, 1, 2 gives 0 |
| Coords.CoordSys.SharedFace | CoordSys.cpp:500-575 | AreaHi of a cell equals AreaLo of the next cell in that direction, in Cartesian, RZ and 3-D |
| Coords.CoordSys.FlatFaceArea | CoordSys.cpp:500-575 | outside RZ, AreaLo = AreaHi independently of the point, and face area times width is the product of the spacings |
| Coords.CoordSys.RingVolume | CoordSys.cpp:476-519 | an RZ cell's volume, its axial face area times dz, is RZFACTOR r_c dr dz |
| Coords.CoordSys.Volume | CoordSys.cpp:467-474 | Cartesian: the product of the spacings; RZ: the axial face area AreaLo(p, 1) times dz |
| Coords.RzFactor | CoordSys.cpp:18 | `RZFACTOR = 2 * 4 * atan(1)` with `atan` a field of the Libm; the factor of the RZ areas and volumes |
| Coords.CoordSys.BoxVolume | CoordSys.cpp:476-498 | the volume between two corners: the product of the coordinate differences in Cartesian, `(RZFACTOR / 2) (z_hi - z_lo) (r_hi^2 - r_lo^2)` in RZ; CornerVolume and RingVolume relate it to the cell volume |
| Coords.CoordSys.CornerVolume | CoordSys.cpp:476-498 | the volume between a cell's corner nodes is the same |

## Left out

- Floating point: all quantities are mathematical reals. There is no rounding, overflow,
  inf or NaN. C `int` is unbounded: `12 * radious * radious` at line 231 does not wrap.
- `sqrt`, `acos`, `sin`, `cos`, `fmod`, `atan` and `pi` are uninterpreted: they are the fields
  of a `Libm` value. Only the laws a lemma names are assumed: a true square root,
  sin^2 + cos^2 = 1 with cos(acos x) = x, and pi > 0.
- `MathLib.TruncToInt`: models the `(int)` casts of `CellIndex`/`LowerIndex`/`UpperIndex`
  and of the marker count (`Ml`). It is exact for every real, with no `int` range. The base
  cell of `ParticleMesh.BaseCell` uses Dafny's `.Floor`, which is the `floor` of the source
  followed by an exact conversion.
- Divisions the source performs without a guard are preconditions:
  - `dx != 0`, `dt != 0`, `h != 0`;
  - `Ml != 0` in `InitParticles`;
  - `ml != 1` for the heights;
  - `rho != rho_f`, `r != 0`, `pi != 0` in `UpdateParticles` (`StepDefined`);
  - `DiffusedIB.StepDefined` also requires `k.rho != 0`: the source divides by `cal_momentum`
    (DiffusedIB.cpp:401), which is zero for a zero density;
  - non-zero spacings for `CellIndex` (`NonZeroSpacing`).

  A zero divisor gives inf or NaN in the source, and the model does not follow it there.
- `Particles.MParticle.CorrectionLoop`: an AMReX `Array4` access outside the fab is not
  checked in a release build. The model checks (`CheckInside`), before each correction pass,
  that every marker's stencil lies inside the fab. If it does not, `InteractWithEuler` stops
  with `OutOfBox`. The low-level `ForceSpreadingCic`/`VelocityInterpolationCir` require the
  stencil to be inside.
- The `MultiFab` is one fab (`array4<real>`) holding the whole grid with `ng` ghost cells. The
  following are not modelled:
  - `MFIter`/`mParIter` over several boxes and tiles;
  - the particle tiles, which are one tile of `pos`/`attr` arrays;
  - `Redistribute`, particle IDs and CPUs;
  - `ParallelDescriptor`, and marker insertion on the I/O processor only (every call inserts
    here);
  - `Print`;
  - `WriteAsciiFile` (line 330), which is output only.
- Concurrency: `ParallelFor`, GPU atomics and the non-atomic shared `+=` of
  `UpdateParticles` (lines 392-394) are sequential loops. `SpreadAllPermutation` shows that
  the spreading result does not depend on the order.
- `Particles.MParticle.InitialWithLagrangianPoints`, `Particles.MParticle.PlaceMarker`,
  `Particles.MParticle.PlaceAndUpdate`, `Particles.MParticle.InteractOne`,
  `Particles.MParticle.AdvanceBody` and `Particles.MParticle.InteractWithEuler` require
  `k.ml <= pos.Length`: the source writes the first `ml` markers (DiffusedIB.cpp:289-300)
  without checking that the tile holds that many.
- `Particles.MParticle.CorrectionLoop`, `Particles.MParticle.InteractOne`,
  `Particles.MParticle.AdvanceBody` and `Particles.MParticle.InteractWithEuler`: the velocity
  block after one or more passes is not stated. They state only its frame and the state the
  last pass leaves: Corrected, and then its parts Settled and SpreadHeld. Each pass's full
  effect, including `V += dt F`, is the contract of `CorrectionPass`. After a pass, the
  History records the marker forces but not the marker velocities. Those velocities are the
  ones interpolated in the last pass from the field of that moment, which the History does
  not keep.
- `Particles.MParticle.Saxpy`: requires the force and velocity blocks to be disjoint, as the
  solver's indices are. The source does not check this.
- `DeltaKernel.KernelWeight`: no value claims for the three-point formulas. Their square-root
  arguments are negative on parts of their branches (lines 79, 81). Only the branch choice is
  proved for them.
- Kernel normalisation (partition of unity) and interpolation accuracy: both need real
  analysis of `sqrt`.
- `nodal_phi_to_pvf` (DiffusedIB.cpp:14-50) depends on `nodal_phi_to_heavi`, which is not
  part of this model. Source/DiffusedIB.H and Source/NavierStokes.H hold only declarations
  and are not part of this model.
- CoordSys.cpp: `GetVolume`, `GetDLogA` and `GetFaceArea`, because they call Fortran
  `FORT_SET*` routines that are not part of this model. The stream operators `<<`/`>>` are
  text I/O.
- CoordSys overloads:
  - the `Array<REAL>&` overloads, which only resize and call the `REAL*` form;
  - the `IntVect` overloads of `LoEdge`/`HiEdge`, which are `LoEdge(point[dir], dir)`.

  These are folded into the modelled members. `GetEdgeLoc` and friends return a new array
  where the source resizes the caller's `Array`.
- CoordSys asserts: `assert(ok)`, `assert(c_sys != undef)` and `assert(0)` are preconditions.
  `assert(region.cellCentered())` is not modelled; a region is given by its `lo` and `hi`
  vectors.
- Coords location methods (`CellCenterAt`, `LoFace`, `HiFace`, `LoNode`, `HiNode`): they
  require the output array not to alias `dx` or `offset`.
- `BL_SPACEDIM` is the constant `spaceDim` of the `CoordStatics` object: 2 or 3, fixed when the
  object is made. The immersed-boundary code is three-dimensional throughout.
