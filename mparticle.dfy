/** The particle container `mParticle` (Source/DiffusedIB.cpp:178-450): the bodies
    (`particle_kernels`), one tile of Lagrangian markers shared by all bodies, and the
    operations that place the markers, advance the bodies and couple the markers to the
    Eulerian field.

    The marker tile is held as two arrays of equal length: `pos` (the particle positions) and
    `attr` (the real attributes U, V, W, Fx, Fy, Fz). The Eulerian `MultiFab` is one fab `E`
    whose first entry holds node `lo`; it has `ng` ghost cells on every side of its valid
    box. */
module Particles {
  import opened MathLib
  import opened Vectors
  import opened DeltaKernel
  import opened ParticleMesh
  import opened DiffusedIB
  import opened RealArith

  /** the outcome of `InteractWithEuler`: it runs to completion, or it stops where a
      marker's stencil would leave the fab */
  datatype Status = Completed | OutOfBox

  /** the kernels `InitParticles` creates, one per point, at rest */
  function NewKernels(x: seq<real>, y: seq<real>, z: seq<real>, rhoS: real, radius: int, ml: int, dv: real): (ks: seq<Kernel>)
    requires |x| == |y| == |z|
    ensures |ks| == |x|
    ensures forall i :: 0 <= i < |ks| ==>
              && ks[i].location == Vec3(x[i], y[i], z[i])
              && ks[i].velocity == Zero && ks[i].omega == Zero && ks[i].varphi == Zero
              && ks[i].radius == radius as real && ks[i].ml == ml && ks[i].dv == dv && ks[i].rho == rhoS
  {
    seq(|x|, i requires 0 <= i < |x| => Kernel(Vec3(x[i], y[i], z[i]), Zero, Zero, Zero, radius as real, ml, dv, rhoS))
  }

  /** the markers as sources of `ForceSpreading`: it reads the attributes U, V, W (not
      Fx, Fy, Fz) as the quantity to spread */
  function MarkerSources(ps: seq<Vec3>, ms: seq<Marker>): (s: seq<Source>)
    requires |ps| == |ms|
    ensures |s| == |ps|
    ensures forall i :: 0 <= i < |s| ==> s[i].p == ps[i] && s[i].f == ms[i].velocity
  {
    seq(|ps|, i requires 0 <= i < |ps| => Source(ps[i], ms[i].velocity))
  }

  /** overwriting the first element after a prefix p extends the prefix by that element */
  lemma Overwrite<T>(p: seq<T>, o: seq<T>, x: T)
    requires |p| < |o|
    ensures (p + o[|p|..])[|p| := x] == (p + [x]) + o[|p| + 1..]
  {
  }

  /** the positions of a body's first n markers on its sphere, in placement order */
  ghost function Placements(m: Libm, k: Kernel, n: int): (ps: seq<Vec3>)
    requires StepRootsNonZero(m.sqrt, k.ml) && k.ml != 1 && 0 <= n && (n <= k.ml || n == 0)
    ensures |ps| == n
    decreases n
  {
    if n == 0 then [] else Placements(m, k, n - 1) + [MarkerPosition(m, k, n - 1, Azimuth(m, k.ml, n - 1))]
  }

  /** marker i of the placement sits at height Hk and azimuth Azimuth(i) */
  lemma {:induction false} PlacementsAt(m: Libm, k: Kernel, n: int)
    requires StepRootsNonZero(m.sqrt, k.ml) && k.ml != 1 && 0 <= n && (n <= k.ml || n == 0)
    ensures forall i :: 0 <= i < n ==> Placements(m, k, n)[i] == MarkerPosition(m, k, i, Azimuth(m, k.ml, i))
    decreases n
  {
    if n > 0 {
      PlacementsAt(m, k, n - 1);
    }
  }

  /** a tile whose first Ml markers sit at the body's placement and whose other markers are
      those of ps */
  ghost function Placed(m: Libm, k: Kernel, ps: seq<Vec3>): (r: seq<Vec3>)
    requires SqrtLaws(m.sqrt) && k.ml != 1 && k.ml <= |ps|
    ensures |r| == |ps|
  {
    TrueRootsNonZero(m.sqrt, k.ml);
    Placements(m, k, Max0(k.ml)) + ps[Max0(k.ml)..]
  }

  /** body k became k' in one InteractWithEuler step over `tile` and `layout`: it advanced
      from the forces of the tile and their moments about its centre at its placement over
      `layout`, and the markers of that placement moved by its displacement into `next` */
  ghost predicate Advanced(m: Libm, rhoFluid: real, dt: real, alpha: real, k: Kernel, k': Kernel,
                           tile: seq<Marker>, layout: seq<Vec3>, next: seq<Vec3>)
    requires SqrtLaws(m.sqrt) && k.ml != 1 && k.ml <= |layout| == |tile| && StepDefined(m.pi, k, rhoFluid, dt)
  {
    var placed := Placed(m, k, layout);
    && k' == BodyStep(m.pi, k, rhoFluid, dt, alpha, NetForce(tile, k.dv), NetMoment(placed, tile, k.location, k.dv))
    && next == Moved(placed, Displacement(k, k'.velocity, dt, alpha))
  }

  /** every marker's force is the direct forcing that brings its velocity to u in one dt */
  predicate Settled(ms: seq<Marker>, u: Vec3, dt: real)
    requires dt != 0.0
  {
    forall i :: 0 <= i < |ms| ==> ms[i].force == LagrangianForce(u, ms[i].velocity, dt)
  }

  /** on the valid box, the force block of E that starts at fComp holds exactly what the
      markers ms at positions ps spread */
  ghost predicate SpreadHeld(E: array4<real>, tr: Transfer, ng: int, fComp: int, ps: seq<Vec3>, ms: seq<Marker>)
    reads E
    requires tr.Valid() && |ps| == |ms|
  {
    forall a, b, c, n | InFab(E, a, b, c, n) && InValid(E, ng, a, b, c) && InBlock(n, fComp) ::
      E[a, b, c, n] == SpreadAll(tr, MarkerSources(ps, ms), fComp, a, b, c, n)
  }

  /** the markers `next` that body k, advanced to k' over `tile` and `layout`, leaves after
      `passes` correction passes: with none, the forces refreshed by the update at the
      placement; after one or more, forces that bring every marker to the body's velocity */
  ghost predicate MarkersAfter(m: Libm, dt: real, k: Kernel, k': Kernel, tile: seq<Marker>, layout: seq<Vec3>,
                               next: seq<Marker>, passes: int)
    requires SqrtLaws(m.sqrt) && k.ml != 1 && k.ml <= |layout| == |tile| && dt != 0.0
  {
    && 0 <= passes
    && (passes == 0 ==> next == Refreshed(k', Placed(m, k, layout), tile, dt))
    && (passes > 0 ==> |next| == |tile| && Settled(next, k'.velocity, dt))
  }

  /** what InteractWithEuler has done after n bodies: `tiles` and `layouts` hold the n + 1
      marker states it passed through, each of len markers; body j < n of ks0 became ks[j],
      Advanced over tile j and layout j into layout j + 1, and made passes[j] correction
      passes that left the markers of tile j + 1; the bodies from n on are as in ks0 */
  ghost predicate History(m: Libm, rhoFluid: real, dt: real, alpha: real, ks0: seq<Kernel>, ks: seq<Kernel>,
                          tiles: seq<seq<Marker>>, layouts: seq<seq<Vec3>>, passes: seq<int>, n: int, len: int)
    requires SqrtLaws(m.sqrt)
    requires forall j :: 0 <= j < |ks0| ==> ks0[j].ml != 1 && ks0[j].ml <= len && StepDefined(m.pi, ks0[j], rhoFluid, dt)
  {
    && 0 <= n <= |ks0| == |ks|
    && |tiles| == |layouts| == n + 1
    && (forall j :: 0 <= j < |tiles| ==> |tiles[j]| == |layouts[j]| == len)
    && |passes| == n
    && (forall j {:trigger Advanced(m, rhoFluid, dt, alpha, ks0[j], ks[j], tiles[j], layouts[j], layouts[j + 1])}
                 {:trigger MarkersAfter(m, dt, ks0[j], ks[j], tiles[j], layouts[j], tiles[j + 1], passes[j])} :: 0 <= j < n ==>
          && Advanced(m, rhoFluid, dt, alpha, ks0[j], ks[j], tiles[j], layouts[j], layouts[j + 1])
          && MarkersAfter(m, dt, ks0[j], ks[j], tiles[j], layouts[j], tiles[j + 1], passes[j]))
    && (forall j :: n <= j < |ks| ==> ks[j] == ks0[j])
  }

  /** one more body: advancing body n over the last state extends the history by one */
  lemma HistoryStep(m: Libm, rhoFluid: real, dt: real, alpha: real, ks0: seq<Kernel>, ks: seq<Kernel>,
                    tiles: seq<seq<Marker>>, layouts: seq<seq<Vec3>>, passes: seq<int>, n: int, len: int,
                    k': Kernel, tile: seq<Marker>, layout: seq<Vec3>, count: int)
    requires SqrtLaws(m.sqrt)
    requires forall j :: 0 <= j < |ks0| ==> ks0[j].ml != 1 && ks0[j].ml <= len && StepDefined(m.pi, ks0[j], rhoFluid, dt)
    requires History(m, rhoFluid, dt, alpha, ks0, ks, tiles, layouts, passes, n, len) && n < |ks0|
    requires |tile| == |layout| == len
    requires Advanced(m, rhoFluid, dt, alpha, ks0[n], k', tiles[n], layouts[n], layout)
    requires MarkersAfter(m, dt, ks0[n], k', tiles[n], layouts[n], tile, count)
    ensures History(m, rhoFluid, dt, alpha, ks0, ks[n := k'], tiles + [tile], layouts + [layout], passes + [count], n + 1, len)
  {
    var ks', tiles', layouts', passes' := ks[n := k'], tiles + [tile], layouts + [layout], passes + [count];
    forall j | 0 <= j < n + 1
      ensures Advanced(m, rhoFluid, dt, alpha, ks0[j], ks'[j], tiles'[j], layouts'[j], layouts'[j + 1])
      ensures MarkersAfter(m, dt, ks0[j], ks'[j], tiles'[j], layouts'[j], tiles'[j + 1], passes'[j])
    {
      if j < n {
        assert ks'[j] == ks[j] && tiles'[j] == tiles[j] && layouts'[j] == layouts[j];
        assert layouts'[j + 1] == layouts[j + 1] && tiles'[j + 1] == tiles[j + 1] && passes'[j] == passes[j];
      }
    }
  }

  /** every position moved by d */
  function Moved(ps: seq<Vec3>, d: Vec3): (r: seq<Vec3>)
    ensures |r| == |ps|
    ensures forall i :: 0 <= i < |r| ==> r[i] == ps[i].Add(d)
  {
    seq(|ps|, i requires 0 <= i < |ps| => ps[i].Add(d))
  }

  /** the markers after ComputeLagrangianForce: each keeps its velocity and takes the force
      that brings it to the body velocity u in one step dt */
  function Forced(ms: seq<Marker>, u: Vec3, dt: real): (r: seq<Marker>)
    requires dt != 0.0
    ensures |r| == |ms|
    ensures forall i :: 0 <= i < |r| ==> r[i].velocity == ms[i].velocity && r[i].velocity.Add(r[i].force.Scale(dt)) == u
  {
    seq(|ms|, i requires 0 <= i < |ms| => ms[i].(force := LagrangianForce(u, ms[i].velocity, dt)))
  }

  /** the markers after the second loop of UpdateParticles: each keeps its velocity and
      takes the force RefreshedForce of body k' at the matching position of ps */
  function Refreshed(k': Kernel, ps: seq<Vec3>, ms: seq<Marker>, dt: real): (r: seq<Marker>)
    requires dt != 0.0 && |ps| == |ms|
    ensures |r| == |ms|
    ensures forall i :: 0 <= i < |r| ==> r[i].velocity == ms[i].velocity && r[i].force == RefreshedForce(k', ps[i], ms[i].velocity, dt)
  {
    seq(|ms|, i requires 0 <= i < |ms| => ms[i].(force := RefreshedForce(k', ps[i], ms[i].velocity, dt)))
  }

  /** the markers after interpolation: each takes the velocity gathered around its position */
  ghost function Interpolated(tr: Transfer, E: array4<real>, vComp: int, ps: seq<Vec3>, ms: seq<Marker>): (r: seq<Marker>)
    reads E
    requires tr.Valid() && |ps| == |ms| && 0 <= vComp && vComp + 3 <= E.Length3
    requires forall i :: 0 <= i < |ps| ==> StencilInside(E, tr.lo, BaseCell(tr.geom, ps[i]))
    ensures |r| == |ms|
    ensures forall i :: 0 <= i < |r| ==> r[i] == ms[i].(velocity := GatherBox(tr, BaseCell(tr.geom, ps[i]), ps[i], E, vComp, 3))
  {
    seq(|ms|, i requires 0 <= i < |ms| reads E =>
        ms[i].(velocity := GatherBox(tr, BaseCell(tr.geom, ps[i]), ps[i], E, vComp, 3)))
  }

  /** the interpolated markers depend on the fab only through its velocity block B */
  lemma InterpolatedOfBlock(tr: Transfer, E: array4<real>, vComp: int, B: seq<seq<seq<Vec3>>>, ps: seq<Vec3>, ms: seq<Marker>)
    requires tr.Valid() && |ps| == |ms| && 0 <= vComp && vComp + 3 <= E.Length3
    requires forall i :: 0 <= i < |ps| ==> StencilInside(E, tr.lo, BaseCell(tr.geom, ps[i]))
    requires BlockOf(B, E, vComp)
    ensures Interpolated(tr, E, vComp, ps, ms) == BlockInterpolated(tr, E, B, ps, ms)
  {
    var r, q := Interpolated(tr, E, vComp, ps, ms), BlockInterpolated(tr, E, B, ps, ms);
    forall i | 0 <= i < |ps|
      ensures r[i] == q[i]
    {
      var base := BaseCell(tr.geom, ps[i]);
      BoxOfBlock(tr, base, ps[i], E, vComp, B, 3);
      assert q[i] == ms[i].(velocity := BoxOf(tr, base, ps[i], E, B, 3));
    }
  }

  /** Interpolated, gathering from the velocity block B of a fab shaped like E */
  ghost function BlockInterpolated(tr: Transfer, E: array4<real>, B: seq<seq<seq<Vec3>>>, ps: seq<Vec3>, ms: seq<Marker>): (r: seq<Marker>)
    requires tr.Valid() && |ps| == |ms| && FabShaped(B, E)
    requires forall i :: 0 <= i < |ps| ==> StencilInside(E, tr.lo, BaseCell(tr.geom, ps[i]))
    ensures |r| == |ms|
  {
    seq(|ms|, i requires 0 <= i < |ms| => ms[i].(velocity := BoxOf(tr, BaseCell(tr.geom, ps[i]), ps[i], E, B, 3)))
  }

  /** the cells (a, b, c) of the fab's valid box, `ng` cells in from every face */
  predicate InValid(E: array4<real>, ng: int, a: int, b: int, c: int) {
    ng <= a < E.Length0 - ng && ng <= b < E.Length1 - ng && ng <= c < E.Length2 - ng
  }

  /** component n lies in the block of three components that starts at `first` */
  predicate InBlock(n: int, first: int) {
    first <= n < first + 3
  }

  /** entry (a, b, c, n) of the fab lies in the block of three components that starts at
      `first`; it names the velocity entries that the Saxpy rewrites */
  predicate InFabBlock(E: array4<real>, a: int, b: int, c: int, n: int, first: int) {
    InFab(E, a, b, c, n) && InBlock(n, first)
  }

  class MParticle {
    /** the host math library */
    const libm: Libm
    /** the finest level's geometry */
    const geom: Geometry

    var kernels: seq<Kernel>
    var pos: array<Vec3>
    var attr: array<Marker>
    var forceIndex: int
    var velocityIndex: int
    var fluidRho: real

    ghost predicate Valid()
      reads this
    {
      pos.Length == attr.Length && geom.Valid() && PiPositive(libm)
    }

    /** an empty container on a grid with non-zero cell sizes */
    constructor (m: Libm, g: Geometry)
      requires g.Valid() && PiPositive(m)
      ensures Valid() && libm == m && geom == g
      ensures kernels == [] && pos.Length == 0 && attr.Length == 0
    {
      libm := m;
      geom := g;
      kernels := [];
      pos := new Vec3[0];
      attr := new Marker[0];
      forceIndex := 0;
      velocityIndex := 0;
      fluidRho := 0.0;
    }

    /** the transfer between markers and the fab whose first entry holds node `lo` */
    function TransferTo(lo: Cell, kind: DeltaType): (tr: Transfer)
      requires geom.Valid()
      ensures tr.Valid() && tr.geom == geom && tr.lo == lo
    {
      Transfer(KernelOf(libm.sqrt, kind), geom, lo)
    }

    // -------------------------------------------------------------------------------------
    // Creating the bodies

    /** `InitParticles`: records the field indices and the fluid density; then, when the
        three coordinate lists have the same length, appends one body at rest per point and
        Ml zero markers to the tile (a single process, which is the I/O processor). */
    method InitParticles(x: seq<real>, y: seq<real>, z: seq<real>, rhoS: real, radius: int,
                         rhoF: real, fIndex: int, vIndex: int)
      requires Valid()
      requires |x| == |y| == |z| ==> MarkerCount(libm.pi, radius, geom.dx.x) != 0
      modifies this
      ensures Valid()
      ensures forceIndex == fIndex && velocityIndex == vIndex && fluidRho == rhoF
      ensures !(|x| == |y| == |z|) ==> kernels == old(kernels) && pos == old(pos) && attr == old(attr)
      ensures |x| == |y| == |z| ==>
                var ml := MarkerCount(libm.pi, radius, geom.dx.x);
                && kernels == old(kernels) + NewKernels(x, y, z, rhoS, radius, ml, MarkerVolume(libm.pi, radius, geom.dx.x, ml))
                && pos[..] == old(pos[..]) + seq(ml, _ => Zero)
                && attr[..] == old(attr[..]) + seq(ml, _ => ZeroMarker)
    {
      forceIndex := fIndex;
      fluidRho := rhoF;
      velocityIndex := vIndex;
      if !(|x| == |y| && |x| == |z|) {
        return;
      }
      var h := geom.dx.x;
      var ml := MarkerCount(libm.pi, radius, h);
      var dv := MarkerVolume(libm.pi, radius, h, ml);
      var added: seq<Kernel> := [];
      for index := 0 to |x|
        invariant added == NewKernels(x, y, z, rhoS, radius, ml, dv)[..index]
      {
        var mKernel := Kernel(Vec3(x[index], y[index], z[index]), Zero, Zero, Zero, radius as real, ml, dv, rhoS);
        assert NewKernels(x, y, z, rhoS, radius, ml, dv)[..index + 1]
               == NewKernels(x, y, z, rhoS, radius, ml, dv)[..index] + [mKernel];
        added := added + [mKernel];
      }
      assert added == NewKernels(x, y, z, rhoS, radius, ml, dv);
      kernels := kernels + added;
      pos := Appended(pos, ml, Zero);
      attr := Appended(attr, ml, ZeroMarker);
    }

    // -------------------------------------------------------------------------------------
    // Placing the markers of one body

    /** `InitialWithLargrangianPoints`: markers 0 .. ml - 1 move to the body's sphere, at
        height Hk and running azimuth phiK; the other markers stay where they are. */
    method InitialWithLagrangianPoints(k: Kernel)
      requires StepRootsNonZero(libm.sqrt, k.ml)
      requires k.ml != 1 && k.ml <= pos.Length
      modifies pos
      ensures pos[..Max0(k.ml)] == Placements(libm, k, Max0(k.ml))
      ensures pos[Max0(k.ml)..] == old(pos[Max0(k.ml)..])
    {
      var phiK := 0.0;
      var count := Max0(k.ml);
      ghost var initial := pos[..];
      for index := 0 to count
        invariant 0 < index ==> phiK == Azimuth(libm, k.ml, index - 1)
        invariant pos[..] == Placements(libm, k, index) + initial[index..]
      {
        phiK := PlaceMarker(k, index, phiK);
        Overwrite(Placements(libm, k, index), initial, MarkerPosition(libm, k, index, phiK));
      }
      assert pos[..count] == pos[..][..count];
    }

    /** one pass of the placement loop: advances phiK and moves marker `index` to height Hk
        and the new azimuth; no other marker moves */
    method PlaceMarker(k: Kernel, index: int, phiK: real) returns (next: real)
      requires StepRootsNonZero(libm.sqrt, k.ml)
      requires k.ml != 1 && 0 <= index < k.ml && k.ml <= pos.Length
      requires 0 < index ==> phiK == Azimuth(libm, k.ml, index - 1)
      modifies pos
      ensures next == Azimuth(libm, k.ml, index)
      ensures pos[..] == old(pos[..])[index := MarkerPosition(libm, k, index, next)]
    {
      next := NextAzimuth(k.ml, index, phiK);
      pos[index] := MarkerPosition(libm, k, index, next);
    }

    /** one step of the azimuth recurrence: 0 at the poles, otherwise
        `fmod(phiK + 3.809 / sqrt(ml) / sqrt(1 - Hk^2), 2 pi)` */
    method NextAzimuth(ml: int, index: int, phiK: real) returns (next: real)
      requires StepRootsNonZero(libm.sqrt, ml) && 0 <= index < ml
      requires 0 < index ==> phiK == Azimuth(libm, ml, index - 1)
      ensures next == Azimuth(libm, ml, index)
    {
      if index == 0 || index == ml - 1 {
        next := 0.0;
      } else {
        next := libm.fmod(phiK + AzimuthStep(libm.sqrt, ml, index), 2.0 * libm.pi);
      }
    }

    // -------------------------------------------------------------------------------------
    // Direct forcing and the body update

    /** `ComputeLagrangianForce`: every marker's force becomes (body velocity - marker
        velocity) / dt; the marker velocities stay. */
    method ComputeLagrangianForce(dt: real, k: Kernel)
      requires Valid() && dt != 0.0
      modifies attr
      ensures forall i :: 0 <= i < attr.Length ==>
                attr[i] == old(attr[i]).(force := LagrangianForce(k.velocity, old(attr[i]).velocity, dt))
    {
      var ub, vb, wb := k.velocity.x, k.velocity.y, k.velocity.z;
      for i := 0 to attr.Length
        invariant forall j :: 0 <= j < i ==>
                    attr[j] == old(attr[j]).(force := LagrangianForce(k.velocity, old(attr[j]).velocity, dt))
        invariant forall j :: i <= j < attr.Length ==> attr[j] == old(attr[j])
      {
        var u := attr[i].velocity;
        attr[i] := attr[i].(force := Vec3((ub - u.x) / dt, (vb - u.y) / dt, (wb - u.z) / dt));
      }
    }

    /** `UpdateParticles`: sums the marker forces and moments (about the body's current
        centre), advances the body by BodyStep, then stores each marker's refreshed force
        and moves every marker by the body's displacement. */
    method UpdateParticles(k: Kernel, dt: real, alpha: real) returns (k': Kernel)
      requires Valid() && StepDefined(libm.pi, k, fluidRho, dt)
      modifies pos, attr
      ensures k' == BodyStep(libm.pi, k, fluidRho, dt, alpha,
                             NetForce(old(attr[..]), k.dv), NetMoment(old(pos[..]), old(attr[..]), k.location, k.dv))
      ensures forall i :: 0 <= i < pos.Length ==>
                && pos[i] == old(pos[i]).Add(Displacement(k, k'.velocity, dt, alpha))
                && attr[i] == old(attr[i]).(force := RefreshedForce(k', old(pos[i]), old(attr[i]).velocity, dt))
      ensures pos[..] == Moved(old(pos[..]), Displacement(k, k'.velocity, dt, alpha))
      ensures attr[..] == Refreshed(k', old(pos[..]), old(attr[..]), dt)
    {
      ghost var ps, ms := pos[..], attr[..];
      var forceDv, moment := SumForces(k.location, k.dv);
      k' := BodyStep(libm.pi, k, fluidRho, dt, alpha, forceDv, moment);
      MoveMarkers(k', Displacement(k, k'.velocity, dt, alpha), dt);
      assert pos[..] == Moved(ps, Displacement(k, k'.velocity, dt, alpha));
      assert attr[..] == Refreshed(k', ps, ms, dt);
    }

    /** the second marker loop of UpdateParticles: the force `rho_p / dt * (U + tmp)` with
        tmp = omega x (location - pos), then the move by deltaX */
    method MoveMarkers(k': Kernel, deltaX: Vec3, dt: real)
      requires Valid() && dt != 0.0
      modifies pos, attr
      ensures forall i :: 0 <= i < pos.Length ==>
                && pos[i] == old(pos[i]).Add(deltaX)
                && attr[i] == old(attr[i]).(force := RefreshedForce(k', old(pos[i]), old(attr[i]).velocity, dt))
    {
      for i := 0 to pos.Length
        invariant forall j :: 0 <= j < i ==> pos[j] == old(pos[j]).Add(deltaX)
        invariant forall j :: 0 <= j < i ==>
                    attr[j] == old(attr[j]).(force := RefreshedForce(k', old(pos[j]), old(attr[j]).velocity, dt))
        invariant forall j :: i <= j < pos.Length ==> pos[j] == old(pos[j])
        invariant forall j :: i <= j < pos.Length ==> attr[j] == old(attr[j])
      {
        var p := pos[i];
        attr[i] := attr[i].(force := RefreshedForce(k', p, attr[i].velocity, dt));
        pos[i] := p.Add(deltaX);
      }
    }

    /** the first marker loop of UpdateParticles: `ForceDv` and `Moment` */
    method SumForces(location: Vec3, dv: real) returns (forceDv: Vec3, moment: Vec3)
      requires Valid()
      ensures forceDv == NetForce(attr[..], dv)
      ensures moment == NetMoment(pos[..], attr[..], location, dv)
    {
      forceDv, moment := Zero, Zero;
      for i := 0 to pos.Length
        invariant forceDv == NetForce(attr[..i], dv)
        invariant moment == NetMoment(pos[..i], attr[..i], location, dv)
      {
        var f := attr[i].force;
        forceDv := forceDv.Add(f.Scale(dv));
        moment := moment.Add(pos[i].Sub(location).Cross(f).Scale(dv));
        assert attr[..i + 1][..i] == attr[..i] && pos[..i + 1][..i] == pos[..i];
      }
      assert attr[..pos.Length] == attr[..] && pos[..pos.Length] == pos[..];
    }

    // -------------------------------------------------------------------------------------
    // The coupling with the Eulerian field

    /** every marker's stencil lies inside the fab */
    ghost predicate AllInside(E: array4<real>, lo: Cell)
      reads this, pos
      requires Valid()
    {
      forall i :: 0 <= i < pos.Length ==> StencilInside(E, lo, BaseCell(geom, pos[i]))
    }

    /** whether AllInside holds (the model of the bounds the fab accessors assume) */
    method CheckInside(E: array4<real>, lo: Cell) returns (inside: bool)
      requires Valid()
      ensures inside <==> AllInside(E, lo)
    {
      for i := 0 to pos.Length
        invariant forall j :: 0 <= j < i ==> StencilInside(E, lo, BaseCell(geom, pos[j]))
      {
        if !StencilInside(E, lo, BaseCell(geom, pos[i])) {
          return false;
        }
      }
      return true;
    }

    /** `VelocityInterpolation`: every marker's U, V, W become the field velocity gathered
        from the 125 nodes around it; its force stays. */
    method VelocityInterpolation(E: array4<real>, tr: Transfer)
      requires Valid() && tr.geom == geom && AllInside(E, tr.lo)
      requires 0 <= velocityIndex && velocityIndex + 3 <= E.Length3
      modifies attr
      ensures attr[..] == old(Interpolated(tr, E, velocityIndex, pos[..], attr[..]))
    {
      ghost var target := Interpolated(tr, E, velocityIndex, pos[..], attr[..]);
      for i := 0 to attr.Length
        invariant attr[..i] == target[..i]
        invariant attr[i..] == old(attr[..])[i..]
      {
        GatherOne(tr, E, i, target);
        assert attr[..i + 1] == attr[..i] + [attr[i]];
      }
    }

    /** one pass of the interpolation loop: marker i takes the gathered velocity */
    method GatherOne(tr: Transfer, E: array4<real>, i: int, ghost target: seq<Marker>)
      requires Valid() && tr.Valid() && tr.geom == geom && AllInside(E, tr.lo) && 0 <= i < attr.Length
      requires 0 <= velocityIndex && velocityIndex + 3 <= E.Length3
      requires |target| == attr.Length
      requires target[i] == attr[i].(velocity := GatherBox(tr, BaseCell(geom, pos[i]), pos[i], E, velocityIndex, 3))
      modifies attr
      ensures attr[i] == target[i]
      ensures attr[..i] == old(attr[..i]) && attr[i + 1..] == old(attr[i + 1..])
    {
      var up, vp, wp := VelocityInterpolationCir(tr, pos[i], E, velocityIndex);
      attr[i] := attr[i].(velocity := Vec3(up, vp, wp));
    }

    /** `ForceSpreading`: every marker spreads its U, V, W (the attributes it reads in place
        of Fx, Fy, Fz) into the force components; the field grows by the sum of all markers'
        increments. */
    method ForceSpreading(E: array4<real>, tr: Transfer)
      requires Valid() && tr.geom == geom && AllInside(E, tr.lo)
      requires 0 <= forceIndex && forceIndex + 3 <= E.Length3
      modifies E
      ensures forall a, b, c, n | InFab(E, a, b, c, n) && InBlock(n, forceIndex) ::
                E[a, b, c, n] == old(E[a, b, c, n])
                                 + SpreadAll(tr, MarkerSources(pos[..], attr[..]), forceIndex, a, b, c, n)
      ensures forall a, b, c, n | InFab(E, a, b, c, n) && !InBlock(n, forceIndex) :: E[a, b, c, n] == old(E[a, b, c, n])
    {
      ghost var sources := MarkerSources(pos[..], attr[..]);
      for i := 0 to pos.Length
        invariant forall a, b, c, n | InFab(E, a, b, c, n) ::
                    E[a, b, c, n] == old(E[a, b, c, n]) + SpreadAll(tr, sources[..i], forceIndex, a, b, c, n)
      {
        SpreadOne(tr, E, sources, i);
      }
      assert sources[..pos.Length] == sources;
      forall a, b, c, n | InFab(E, a, b, c, n) && !InBlock(n, forceIndex)
        ensures E[a, b, c, n] == old(E[a, b, c, n])
      {
        SpreadAllOffBlock(tr, sources, forceIndex, a, b, c, n);
      }
    }

    /** one pass of the spreading loop: marker i's increment joins the sum */
    method SpreadOne(tr: Transfer, E: array4<real>, ghost sources: seq<Source>, i: int)
      requires Valid() && tr.Valid() && tr.geom == geom && AllInside(E, tr.lo)
      requires 0 <= forceIndex && forceIndex + 3 <= E.Length3
      requires sources == MarkerSources(pos[..], attr[..]) && 0 <= i < pos.Length
      modifies E
      ensures forall a, b, c, n | InFab(E, a, b, c, n) ::
                E[a, b, c, n] - old(E[a, b, c, n]) == SpreadAll(tr, sources[..i + 1], forceIndex, a, b, c, n)
                                                     - SpreadAll(tr, sources[..i], forceIndex, a, b, c, n)
    {
      var m := attr[i];
      ForceSpreadingCic(tr, pos[i], m.velocity, E, forceIndex);
      assert sources[..i + 1][..i] == sources[..i];
    }

    /** the field indices fit the fab, and the force and velocity blocks do not overlap */
    predicate FieldIndices(E: array4<real>)
      reads this
    {
      && 0 <= forceIndex && forceIndex + 3 <= E.Length3
      && 0 <= velocityIndex && velocityIndex + 3 <= E.Length3
      && (forceIndex + 3 <= velocityIndex || velocityIndex + 3 <= forceIndex)
    }

    /** `InteractWithEuler`: for every body in turn, places its markers, advances it, and
        then runs the correction loop while `loop_time` is positive. The counter is shared by
        all bodies and never reset, so only the first body is corrected: `runs` holds the
        number of correction passes each body received. When a marker's stencil would leave
        the fab the run stops with OutOfBox.

        `tiles[j]` and `layouts[j]` are the marker attributes and positions before body j;
        the last entries are the final ones. Body j is Advanced: it moves on from the forces
        of tiles[j] and the moments about its centre of its placement over layouts[j], and the
        markers of that placement then move by its displacement. */
    method InteractWithEuler(E: array4<real>, lo: Cell, ng: int, loopTime: int, dt: real, alpha: real, kind: DeltaType)
      returns (status: Status, runs: seq<int>, ghost tiles: seq<seq<Marker>>, ghost layouts: seq<seq<Vec3>>)
      requires Valid() && SqrtLaws(libm.sqrt) && FieldIndices(E)
      requires forall b :: 0 <= b < |kernels| ==>
                 kernels[b].ml != 1 && kernels[b].ml <= pos.Length && StepDefined(libm.pi, kernels[b], fluidRho, dt)
      modifies this, pos, attr, E
      ensures Valid() && pos == old(pos) && attr == old(attr)
      ensures forceIndex == old(forceIndex) && velocityIndex == old(velocityIndex) && fluidRho == old(fluidRho)
      ensures 0 < |tiles| && History(libm, fluidRho, dt, alpha, old(kernels), kernels, tiles, layouts, runs, |tiles| - 1, pos.Length)
      ensures status == Completed ==> |tiles| == |kernels| + 1
      ensures tiles[0] == old(attr[..]) && layouts[0] == old(pos[..])
      ensures tiles[|tiles| - 1] == attr[..] && layouts[|layouts| - 1] == pos[..]
      ensures status == Completed ==>
                && |runs| == |kernels|
                && (forall b :: 0 <= b < |runs| ==> runs[b] == if b == 0 then Max0(loopTime) else 0)
      ensures forall b :: 0 < b < |runs| ==> runs[b] == 0
      ensures loopTime <= 0 ==> unchanged(E)
      ensures 0 < |runs| && 0 < runs[0] ==> SpreadHeld(E, TransferTo(lo, kind), ng, forceIndex, layouts[1], tiles[1])
      ensures forall a, b, c, n | InFab(E, a, b, c, n) && !InBlock(n, forceIndex) && !InBlock(n, velocityIndex) ::
                E[a, b, c, n] == old(E[a, b, c, n])
    {
      var tr := TransferTo(lo, kind);
      var remaining := loopTime;
      runs := [];
      tiles, layouts := [attr[..]], [pos[..]];
      for b := 0 to |kernels|
        invariant Valid() && pos == old(pos) && attr == old(attr)
        invariant forceIndex == old(forceIndex) && velocityIndex == old(velocityIndex) && fluidRho == old(fluidRho)
        invariant History(libm, fluidRho, dt, alpha, old(kernels), kernels, tiles, layouts, runs, b, pos.Length)
        invariant tiles[0] == old(attr[..]) && layouts[0] == old(pos[..])
        invariant tiles[b] == attr[..] && layouts[b] == pos[..]
        invariant |runs| == b
        invariant forall j :: 0 <= j < b ==> runs[j] == if j == 0 then Max0(loopTime) else 0
        invariant remaining == if b == 0 then loopTime else Min0(loopTime)
        invariant loopTime <= 0 ==> unchanged(E)
        invariant 0 < b && 0 < runs[0] ==> SpreadHeld(E, tr, ng, forceIndex, layouts[1], tiles[1])
        invariant forall a, b, c, n | InFab(E, a, b, c, n) && !InBlock(n, forceIndex) && !InBlock(n, velocityIndex) ::
                    E[a, b, c, n] == old(E[a, b, c, n])
      {
        var count;
        status, count, remaining, tiles, layouts := AdvanceBody(E, tr, ng, b, remaining, dt, alpha, old(kernels), tiles, layouts, runs);
        assert 0 < b || loopTime <= 0 ==> count == 0;
        runs := runs + [count];
        if status == OutOfBox {
          return;
        }
      }
      status := Completed;
    }

    /** InteractOne for body b, whose entry in kernels becomes the advanced body; the
        history of the bodies advanced so far grows by this one */
    method AdvanceBody(E: array4<real>, tr: Transfer, ng: int, b: int, loopTime: int, dt: real, alpha: real,
                       ghost ks0: seq<Kernel>, ghost tiles: seq<seq<Marker>>, ghost layouts: seq<seq<Vec3>>,
                       ghost passes: seq<int>)
      returns (status: Status, count: int, remaining: int, ghost tiles': seq<seq<Marker>>, ghost layouts': seq<seq<Vec3>>)
      requires Valid() && tr.geom == geom && SqrtLaws(libm.sqrt) && FieldIndices(E) && 0 <= b < |ks0|
      requires forall j :: 0 <= j < |ks0| ==> ks0[j].ml != 1 && ks0[j].ml <= pos.Length && StepDefined(libm.pi, ks0[j], fluidRho, dt)
      requires History(libm, fluidRho, dt, alpha, ks0, kernels, tiles, layouts, passes, b, pos.Length)
      requires tiles[b] == attr[..] && layouts[b] == pos[..]
      modifies this, pos, attr, E
      ensures Valid() && pos == old(pos) && attr == old(attr)
      ensures forceIndex == old(forceIndex) && velocityIndex == old(velocityIndex) && fluidRho == old(fluidRho)
      ensures History(libm, fluidRho, dt, alpha, ks0, kernels, tiles', layouts', passes + [count], b + 1, pos.Length)
      ensures tiles' == tiles + [attr[..]] && layouts' == layouts + [pos[..]]
      ensures status == Completed ==> count == Max0(loopTime) && remaining == Min0(loopTime)
      ensures 0 <= count <= Max0(loopTime)
      ensures count == 0 ==> unchanged(E)
      ensures count > 0 ==> SpreadHeld(E, tr, ng, forceIndex, pos[..], attr[..])
      ensures forall a, b, c, n | InFab(E, a, b, c, n) && !InBlock(n, forceIndex) && !InBlock(n, velocityIndex) ::
                E[a, b, c, n] == old(E[a, b, c, n])
    {
      var k;
      k, status, count, remaining := InteractOne(E, tr, ng, kernels[b], loopTime, dt, alpha);
      HistoryStep(libm, fluidRho, dt, alpha, ks0, kernels, tiles, layouts, passes, b, pos.Length, k, attr[..], pos[..], count);
      kernels := kernels[b := k];
      tiles', layouts' := tiles + [attr[..]], layouts + [pos[..]];
    }

    /** one body of InteractWithEuler: place its markers, advance it from the forces and
        moments of the placed tile, then correct while the shared counter is positive. With
        no completed pass the markers keep the refreshed forces of the update and the field
        is untouched; otherwise the last pass leaves the field and markers Corrected. */
    method InteractOne(E: array4<real>, tr: Transfer, ng: int, k: Kernel, loopTime: int, dt: real, alpha: real)
      returns (k': Kernel, status: Status, count: int, remaining: int)
      requires Valid() && tr.geom == geom && SqrtLaws(libm.sqrt) && FieldIndices(E)
      requires k.ml != 1 && k.ml <= pos.Length && StepDefined(libm.pi, k, fluidRho, dt)
      modifies pos, attr, E
      ensures Advanced(libm, fluidRho, dt, alpha, k, k', old(attr[..]), old(pos[..]), pos[..])
      ensures status == Completed ==> count == Max0(loopTime) && remaining == Min0(loopTime)
      ensures 0 <= count <= Max0(loopTime)
      ensures count == 0 ==> unchanged(E) && attr[..] == Refreshed(k', Placed(libm, k, old(pos[..])), old(attr[..]), dt)
      ensures count > 0 ==> Corrected(E, tr, ng, k', dt)
      ensures forall a, b, c, n | InFab(E, a, b, c, n) && !InBlock(n, forceIndex) && !InBlock(n, velocityIndex) ::
                E[a, b, c, n] == old(E[a, b, c, n])
    {
      k' := PlaceAndUpdate(k, dt, alpha);
      ghost var moved := pos[..];
      status, count, remaining := CorrectionLoop(E, tr, ng, loopTime, dt, k');
      assert pos[..] == moved;
    }

    /** the first half of InteractOne: place the body's markers, then advance the body and
        move its markers */
    method PlaceAndUpdate(k: Kernel, dt: real, alpha: real) returns (k': Kernel)
      requires Valid() && SqrtLaws(libm.sqrt)
      requires k.ml != 1 && k.ml <= pos.Length && StepDefined(libm.pi, k, fluidRho, dt)
      modifies pos, attr
      ensures Advanced(libm, fluidRho, dt, alpha, k, k', old(attr[..]), old(pos[..]), pos[..])
      ensures attr[..] == Refreshed(k', Placed(libm, k, old(pos[..])), old(attr[..]), dt)
    {
      ghost var tile, layout := attr[..], pos[..];
      TrueRootsNonZero(libm.sqrt, k.ml);
      InitialWithLagrangianPoints(k);
      ghost var placed := pos[..];
      assert placed == Placed(libm, k, layout) by {
        assert pos[..] == pos[..Max0(k.ml)] + pos[Max0(k.ml)..];
      }
      k' := UpdateParticles(k, dt, alpha);
    }

    /** every marker's force brings its velocity to the body's, and on the valid box the
        force components hold exactly what the markers spread: the state a correction pass
        leaves behind */
    ghost predicate Corrected(E: array4<real>, tr: Transfer, ng: int, k: Kernel, dt: real)
      reads this, pos, attr, E
      requires Valid() && tr.Valid() && FieldIndices(E) && dt != 0.0
    {
      Settled(attr[..], k.velocity, dt) && SpreadHeld(E, tr, ng, forceIndex, pos[..], attr[..])
    }

    /** `while (loop_time > 0) { ...; loop_time--; }` for one body: the number of passes
        made and the counter left over. Each pass first checks that every stencil lies in the
        fab (CheckInside) and stops with OutOfBox if one does not. Without a completed pass
        nothing changes; after one, the state is Corrected. */
    method CorrectionLoop(E: array4<real>, tr: Transfer, ng: int, loopTime: int, dt: real, k: Kernel)
      returns (status: Status, count: int, remaining: int)
      requires Valid() && tr.geom == geom && FieldIndices(E) && dt != 0.0
      modifies attr, E
      ensures status == Completed ==> count == Max0(loopTime) && remaining == Min0(loopTime)
      ensures 0 <= count <= Max0(loopTime)
      ensures count == 0 ==> unchanged(attr) && unchanged(E)
      ensures count > 0 ==> Corrected(E, tr, ng, k, dt)
      ensures forall a, b, c, n | InFab(E, a, b, c, n) && !InBlock(n, forceIndex) && !InBlock(n, velocityIndex) ::
                E[a, b, c, n] == old(E[a, b, c, n])
    {
      count, remaining := 0, loopTime;
      while remaining > 0
        invariant count == (if loopTime > 0 then loopTime - remaining else 0)
        invariant loopTime > 0 ==> 0 <= remaining <= loopTime
        invariant loopTime <= 0 ==> remaining == loopTime
        invariant count == 0 ==> unchanged(attr) && unchanged(E)
        invariant count > 0 ==> Corrected(E, tr, ng, k, dt)
        invariant forall a, b, c, n | InFab(E, a, b, c, n) && !InBlock(n, forceIndex) && !InBlock(n, velocityIndex) ::
                    E[a, b, c, n] == old(E[a, b, c, n])
      {
        var inside := CheckInside(E, tr.lo);
        if !inside {
          return OutOfBox, count, remaining;
        }
        CorrectionPass(E, tr, ng, dt, k);
        remaining := remaining - 1;
        count := count + 1;
      }
      status := Completed;
    }

    /** one pass of the correction loop, once every marker's stencil is known to lie in the
        fab: clear the force, interpolate the marker velocities, compute the direct forcing,
        spread it and correct the velocity. The markers take the velocities gathered from the field as it was and the forces that
        bring them to the body's; on the valid box the force block becomes what they spread
        and the velocity block grows by dt times it; in the ghost cells the spread force adds
        to the old one. */
    method CorrectionPass(E: array4<real>, tr: Transfer, ng: int, dt: real, k: Kernel)
      requires Valid() && tr.geom == geom && FieldIndices(E) && dt != 0.0 && AllInside(E, tr.lo)
      modifies attr, E
      ensures attr[..] == Forced(old(Interpolated(tr, E, velocityIndex, pos[..], attr[..])), k.velocity, dt)
      ensures forall a, b, c, n | InFab(E, a, b, c, n) && InBlock(n, forceIndex) ::
                E[a, b, c, n] == (if InValid(E, ng, a, b, c) then 0.0 else old(E[a, b, c, n]))
                                 + SpreadAll(tr, MarkerSources(pos[..], attr[..]), forceIndex, a, b, c, n)
      ensures forall a, b, c, n {:trigger InFabBlock(E, a, b, c, n, velocityIndex)} | InFabBlock(E, a, b, c, n, velocityIndex) ::
                E[a, b, c, n] == old(E[a, b, c, n])
                                 + (if InValid(E, ng, a, b, c) then dt * E[a, b, c, n - velocityIndex + forceIndex] else 0.0)
      ensures Corrected(E, tr, ng, k, dt)
      ensures forall a, b, c, n | InFab(E, a, b, c, n) && !InBlock(n, forceIndex) && !InBlock(n, velocityIndex) ::
                E[a, b, c, n] == old(E[a, b, c, n])
    {
      ClearAndForce(E, tr, ng, dt, k);
      label cleared:
      SpreadAndCorrect(E, tr, ng, dt);
      forall a, b, c, n {:trigger InFabBlock(E, a, b, c, n, velocityIndex)} | InFabBlock(E, a, b, c, n, velocityIndex)
        ensures E[a, b, c, n] == old(E[a, b, c, n])
                                 + (if InValid(E, ng, a, b, c) then dt * E[a, b, c, n - velocityIndex + forceIndex] else 0.0)
      {
        assert !InBlock(n, forceIndex);
        assert old@cleared(E[a, b, c, n]) == old(E[a, b, c, n]);
      }
      assert Corrected(E, tr, ng, k, dt);
      forall a, b, c, n | InFab(E, a, b, c, n) && InBlock(n, forceIndex)
        ensures E[a, b, c, n] == (if InValid(E, ng, a, b, c) then 0.0 else old(E[a, b, c, n]))
                                 + SpreadAll(tr, MarkerSources(pos[..], attr[..]), forceIndex, a, b, c, n)
      {
        assert old@cleared(E[a, b, c, n]) == if InValid(E, ng, a, b, c) then 0.0 else old(E[a, b, c, n]);
      }
    }

    /** the first three steps of a correction pass: clear the force, interpolate and compute
        the direct forcing */
    method ClearAndForce(E: array4<real>, tr: Transfer, ng: int, dt: real, k: Kernel)
      requires Valid() && tr.geom == geom && FieldIndices(E) && dt != 0.0 && AllInside(E, tr.lo)
      modifies attr, E
      ensures attr[..] == Forced(old(Interpolated(tr, E, velocityIndex, pos[..], attr[..])), k.velocity, dt)
      ensures forall i :: 0 <= i < attr.Length ==> attr[i].force == LagrangianForce(k.velocity, attr[i].velocity, dt)
      ensures forall a, b, c, n | InFab(E, a, b, c, n) ::
                E[a, b, c, n] == if InValid(E, ng, a, b, c) && InBlock(n, forceIndex) then 0.0 else old(E[a, b, c, n])
    {
      ghost var sought := Interpolated(tr, E, velocityIndex, pos[..], attr[..]);
      ClearForce(E, ng, tr);
      VelocityInterpolation(E, tr);
      assert attr[..] == sought;
      ComputeLagrangianForce(dt, k);
      assert attr[..] == Forced(sought, k.velocity, dt);
    }

    /** `ForceSpreading` followed by the Saxpy: the force block grows by what the markers
        spread, then on the valid box the velocity block grows by dt times the new force */
    method SpreadAndCorrect(E: array4<real>, tr: Transfer, ng: int, dt: real)
      requires Valid() && tr.geom == geom && FieldIndices(E) && AllInside(E, tr.lo)
      modifies E
      ensures forall a, b, c, n | InFab(E, a, b, c, n) && InBlock(n, forceIndex) ::
                E[a, b, c, n] == old(E[a, b, c, n]) + SpreadAll(tr, MarkerSources(pos[..], attr[..]), forceIndex, a, b, c, n)
      ensures forall a, b, c, n {:trigger InFabBlock(E, a, b, c, n, velocityIndex)} | InFabBlock(E, a, b, c, n, velocityIndex) ::
                E[a, b, c, n] == old(E[a, b, c, n])
                                 + (if InValid(E, ng, a, b, c) then dt * E[a, b, c, n - velocityIndex + forceIndex] else 0.0)
      ensures forall a, b, c, n | InFab(E, a, b, c, n) && !InBlock(n, forceIndex) && !InBlock(n, velocityIndex) ::
                E[a, b, c, n] == old(E[a, b, c, n])
    {
      ForceSpreading(E, tr);
      label spread:
      Saxpy(E, ng, dt);
      forall a, b, c, n | InFab(E, a, b, c, n) && InBlock(n, forceIndex)
        ensures E[a, b, c, n] == old(E[a, b, c, n]) + SpreadAll(tr, MarkerSources(pos[..], attr[..]), forceIndex, a, b, c, n)
      {
        assert !InBlock(n, velocityIndex);
      }
      forall a, b, c, n {:trigger InFabBlock(E, a, b, c, n, velocityIndex)} | InFabBlock(E, a, b, c, n, velocityIndex)
        ensures E[a, b, c, n] == old(E[a, b, c, n])
                                 + (if InValid(E, ng, a, b, c) then dt * E[a, b, c, n - velocityIndex + forceIndex] else 0.0)
      {
        var f := n - velocityIndex + forceIndex;
        assert InFab(E, a, b, c, f) && !InBlock(n, forceIndex) && !InBlock(f, velocityIndex);
        assert old@spread(E[a, b, c, n]) == old(E[a, b, c, n]);
      }
    }

    /** the clearing step of the correction loop: the force components of the valid box
        become zero. The velocity block is not touched, so every marker's interpolated
        velocity stays as it was. */
    method ClearForce(E: array4<real>, ng: int, ghost tr: Transfer)
      requires 0 <= forceIndex && forceIndex + 3 <= E.Length3
      modifies E
      ensures forall a, b, c, n | InFab(E, a, b, c, n) ::
                E[a, b, c, n] == if InValid(E, ng, a, b, c) && InBlock(n, forceIndex) then 0.0 else old(E[a, b, c, n])
      ensures Valid() && tr.geom == geom && FieldIndices(E) && AllInside(E, tr.lo) ==>
                Interpolated(tr, E, velocityIndex, pos[..], attr[..]) == old(Interpolated(tr, E, velocityIndex, pos[..], attr[..]))
    {
      ghost var inside := Valid() && tr.geom == geom && FieldIndices(E) && AllInside(E, tr.lo);
      ghost var v := velocityIndex;
      ghost var B: seq<seq<seq<Vec3>>> := [];
      if inside {
        B := VelocityBlock(E, v);
        InterpolatedOfBlock(tr, E, v, B, pos[..], attr[..]);
      }
      ZeroForce(E, ng);
      if inside {
        forall a, b, c | 0 <= a < E.Length0 && 0 <= b < E.Length1 && 0 <= c < E.Length2
          ensures B[a][b][c] == Vec3(E[a, b, c, v], E[a, b, c, v + 1], E[a, b, c, v + 2])
        {
          assert !InBlock(v, forceIndex) && !InBlock(v + 1, forceIndex) && !InBlock(v + 2, forceIndex);
          assert InFab(E, a, b, c, v) && InFab(E, a, b, c, v + 1) && InFab(E, a, b, c, v + 2);
        }
        InterpolatedOfBlock(tr, E, v, B, pos[..], attr[..]);
      }
    }

    /** `mf_array(i, j, k, EulerForceIndex + c) = 0.0` over the valid box */
    method ZeroForce(E: array4<real>, ng: int)
      requires 0 <= forceIndex && forceIndex + 3 <= E.Length3
      modifies E
      ensures forall a, b, c, n | InFab(E, a, b, c, n) ::
                E[a, b, c, n] == if InValid(E, ng, a, b, c) && InBlock(n, forceIndex) then 0.0 else old(E[a, b, c, n])
      ensures forall a, b, c, n | InFab(E, a, b, c, n) && !InBlock(n, forceIndex) :: E[a, b, c, n] == old(E[a, b, c, n])
    {
      forall a, b, c, n | 0 <= a < E.Length0 && 0 <= b < E.Length1 && 0 <= c < E.Length2
                          && InValid(E, ng, a, b, c) && forceIndex <= n < forceIndex + 3 {
        E[a, b, c, n] := 0.0;
      }
    }

    /** `MultiFab::Saxpy(Euler, dt, Euler, force, velocity, 3, 0)`: on the valid box every
        velocity component grows by dt times the matching force component */
    method Saxpy(E: array4<real>, ng: int, dt: real)
      requires 0 <= forceIndex && forceIndex + 3 <= E.Length3
      requires 0 <= velocityIndex && velocityIndex + 3 <= E.Length3
      requires forceIndex + 3 <= velocityIndex || velocityIndex + 3 <= forceIndex
      modifies E
      ensures forall a, b, c, n {:trigger InFabBlock(E, a, b, c, n, velocityIndex)} | InFabBlock(E, a, b, c, n, velocityIndex) ::
                E[a, b, c, n] == old(E[a, b, c, n])
                                 + (if InValid(E, ng, a, b, c) then dt * E[a, b, c, n - velocityIndex + forceIndex] else 0.0)
      ensures forall a, b, c, n | InFab(E, a, b, c, n) && !InBlock(n, velocityIndex) :: E[a, b, c, n] == old(E[a, b, c, n])
    {
      forall a, b, c, n | 0 <= a < E.Length0 && 0 <= b < E.Length1 && 0 <= c < E.Length2
                          && InValid(E, ng, a, b, c) && velocityIndex <= n < velocityIndex + 3 {
        E[a, b, c, n] := E[a, b, c, n] + dt * E[a, b, c, n - velocityIndex + forceIndex];
      }
    }
  }

  /** the parts of a body that neither placement nor the update change */
  predicate SameBody(k: Kernel, k0: Kernel) {
    k.radius == k0.radius && k.ml == k0.ml && k.dv == k0.dv && k.rho == k0.rho
  }

  function Max0(n: int): int {
    if n > 0 then n else 0
  }

  function Min0(n: int): int {
    if n > 0 then 0 else n
  }

  /** a copy of `a` followed by `count` copies of `fill` */
  method Appended<T>(a: array<T>, count: int, fill: T) returns (b: array<T>)
    requires 0 <= count
    ensures fresh(b) && b.Length == a.Length + count
    ensures b[..] == a[..] + seq(count, _ => fill)
  {
    b := new T[a.Length + count](_ => fill);
    for i := 0 to a.Length
      invariant forall j :: 0 <= j < i ==> b[j] == a[j]
      invariant forall j :: a.Length <= j < b.Length ==> b[j] == fill
    {
      b[i] := a[i];
    }
    assert b[..] == a[..] + seq(count, _ => fill);
  }
}
