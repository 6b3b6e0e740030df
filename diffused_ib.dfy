/** The immersed-boundary bodies of `mParticle` (Source/DiffusedIB.cpp:56-60, 178-450): each
    rigid sphere (a `kernel`) is represented by Lagrangian markers on its surface; every
    time step places the markers, advances the body, and runs the multidirect-forcing
    correction loop that interpolates the fluid velocity to the markers, computes the
    direct forcing, spreads it back to the grid and corrects the velocity field. */
module DiffusedIB {
  import opened MathLib
  import opened Vectors
  import opened RealArith
  import opened ParticleMesh

  /** a rigid spherical body (`kernel`): centre, translational and angular velocity, angle,
      radius, number of markers, volume per marker and density */
  datatype Kernel = Kernel(location: Vec3, velocity: Vec3, omega: Vec3, varphi: Vec3,
                           radius: real, ml: int, dv: real, rho: real)

  /** the real attributes of one marker: U/V/W (`velocity`) and Fx/Fy/Fz (`force`) */
  datatype Marker = Marker(velocity: Vec3, force: Vec3)

  const ZeroMarker := Marker(Zero, Zero)

  /** the volume of a sphere of radius r, written `pi * 4 * powi<3>(r) / 3` */
  function SphereVolume(pi: real, r: real): real {
    pi * 4.0 * (r * r * r) / 3.0
  }

  /** `cal_momentum(rho, r) = 8 pi rho powi<5>(r) / 15`: the moment of inertia of a solid
      sphere of density rho, two fifths of its mass times the square of its radius. */
  function CalMomentum(pi: real, rho: real, r: real): (inertia: real)
    ensures inertia == 2.0 / 5.0 * (rho * SphereVolume(pi, r)) * (r * r)
  {
    8.0 * pi * rho * (r * r * r * r * r) / 15.0
  }

  /** A body of positive density and radius has positive inertia. */
  lemma InertiaPositive(pi: real, rho: real, r: real)
    requires pi > 0.0 && rho > 0.0 && r > 0.0
    ensures CalMomentum(pi, rho, r) > 0.0
  {
    FifthPositive(r, r, r, r, r);
    ProductPositive(pi, rho);
    ProductPositive(8.0 * pi * rho, r * r * r * r * r);
  }

  // ---------------------------------------------------------------------------------------
  // Body creation

  /** `Ml = (int)(pi / 3 * (12 * powi<2>(radius / h)))`, the number of markers of a body:
      the sphere's area 4 pi r^2 over h^2, truncated */
  function MarkerCount(pi: real, radius: int, h: real): (ml: int)
    requires h != 0.0 && pi > 0.0
    ensures 0 <= ml
    ensures var q := radius as real / h;
            ml as real <= 4.0 * pi * (q * q) < ml as real + 1.0
  {
    var q := radius as real / h;
    SquareNonNegative(q);
    ProductNonNegative(pi, q * q);
    TruncToInt(pi / 3.0 * (12.0 * (q * q)))
  }

  /** `dv = pi * h / 3 / Ml * (12 * radius * radius + h * h)`, the volume one marker stands
      for (`12 * radius * radius` is integer arithmetic) */
  function MarkerVolume(pi: real, radius: int, h: real, ml: int): real
    requires ml != 0
  {
    pi * h / 3.0 / ml as real * ((12 * radius * radius) as real + h * h)
  }

  /** The Ml markers together stand for the spherical shell of thickness h centred on the
      surface: Ml * dv == 4/3 pi ((r + h/2)^3 - (r - h/2)^3). */
  lemma MarkersFillShell(pi: real, radius: int, h: real, ml: int)
    requires ml != 0
    ensures ml as real * MarkerVolume(pi, radius, h, ml)
            == SphereVolume(pi, radius as real + h / 2.0) - SphereVolume(pi, radius as real - h / 2.0)
  {
    var r := radius as real;
    var m := ml as real;
    var k := pi * h / 3.0;
    var t := (12 * radius * radius) as real + h * h;
    assert (12 * radius * radius) as real == 12.0 * (r * r);
    QuotientTimes(k, m);
    assert m * (k / m * t) == k * t;
    ShellDifference(pi, r, h);
  }

  /** pi 4 (r + h/2)^3 / 3 - pi 4 (r - h/2)^3 / 3 == pi h / 3 (12 r^2 + h^2) */
  lemma ShellDifference(pi: real, r: real, h: real)
    ensures SphereVolume(pi, r + h / 2.0) - SphereVolume(pi, r - h / 2.0) == pi * h / 3.0 * (12.0 * (r * r) + h * h)
  {
    var a := r + h / 2.0;
    var b := r - h / 2.0;
    assert a * a * a - b * b * b == 3.0 * (r * r) * h + h * h * h / 4.0;
  }

  // ---------------------------------------------------------------------------------------
  // Marker placement on the sphere

  /** `Hk = -1 + 2 * index / (ml - 1)`: the heights of the markers are evenly spaced in [-1, 1] */
  function Height(ml: int, index: int): real
    requires ml != 1
  {
    -1.0 + 2.0 * index as real / (ml as real - 1.0)
  }

  /** the running azimuth `phiK` after the loop has visited `index`: 0 at both poles,
      otherwise the previous azimuth advanced by 3.809 / sqrt(ml) / sqrt(1 - Hk^2), modulo 2 pi */
  function Azimuth(m: Libm, ml: int, index: int): real
    requires StepRootsNonZero(m.sqrt, ml) && 0 <= index < ml
  {
    if index == 0 || index == ml - 1 then 0.0
    else
      m.fmod(Azimuth(m, ml, index - 1) + AzimuthStep(m.sqrt, ml, index), 2.0 * m.pi)
  }

  /** `3.809 / sqrt(ml) / sqrt(1 - Hk^2)` at an interior marker */
  function AzimuthStep(sqrt: real -> real, ml: int, index: int): real
    requires StepRootsNonZero(sqrt, ml) && 0 < index < ml - 1
  {
    3.809 / sqrt(ml as real) / sqrt(1.0 - Height(ml, index) * Height(ml, index))
  }

  /** the two roots the azimuth step divides by are non-zero at every interior marker */
  ghost predicate StepRootsNonZero(sqrt: real -> real, ml: int) {
    && (2 < ml ==> sqrt(ml as real) != 0.0)
    && (forall index :: 0 < index < ml - 1 ==> sqrt(1.0 - Height(ml, index) * Height(ml, index)) != 0.0)
  }

  /** A true square root makes the azimuth recurrence well defined. */
  lemma TrueRootsNonZero(sqrt: real -> real, ml: int)
    requires SqrtLaws(sqrt)
    ensures StepRootsNonZero(sqrt, ml)
  {
    if 2 < ml {
      InteriorRoots(sqrt, ml, 1);
    }
    forall index | 0 < index < ml - 1
      ensures sqrt(1.0 - Height(ml, index) * Height(ml, index)) != 0.0
    {
      InteriorRoots(sqrt, ml, index);
    }
  }

  /** Between the poles |Hk| < 1, so neither root in the azimuth step is zero. */
  lemma InteriorRoots(sqrt: real -> real, ml: int, index: int)
    requires SqrtLaws(sqrt) && 0 < index < ml - 1
    ensures sqrt(ml as real) != 0.0
    ensures sqrt(1.0 - Height(ml, index) * Height(ml, index)) != 0.0
  {
    var hk := Height(ml, index);
    HeightInside(ml, index);
    assert 1.0 - hk * hk == (1.0 - hk) * (1.0 + hk);
    ProductPositive(1.0 - hk, 1.0 + hk);
    RootNonZero(sqrt, ml as real);
    RootNonZero(sqrt, 1.0 - hk * hk);
  }

  lemma RootNonZero(sqrt: real -> real, x: real)
    requires SqrtLaws(sqrt) && x > 0.0
    ensures sqrt(x) != 0.0
  {
    var s := sqrt(x);
    assert s * s == x;
  }

  /** Strictly between the poles the height is strictly inside (-1, 1). */
  lemma HeightInside(ml: int, index: int)
    requires 0 < index < ml - 1
    ensures -1.0 < Height(ml, index) < 1.0
  {
    var d := ml as real - 1.0;
    ScaledQuotient(2.0, index as real, d);
    QuotientPositive(index as real, d);
    QuotientBelowOne(index as real, d);
  }

  /** The heights run from the south pole (-1) to the north pole (+1) in equal steps of
      2 / (ml - 1). */
  lemma HeightsEvenlySpaced(ml: int, index: int)
    requires 2 <= ml && 0 <= index < ml
    ensures -1.0 <= Height(ml, index) <= 1.0
    ensures index == 0 ==> Height(ml, index) == -1.0
    ensures index == ml - 1 ==> Height(ml, index) == 1.0
    ensures index + 1 < ml ==> Height(ml, index + 1) - Height(ml, index) == 2.0 / (ml as real - 1.0)
  {
    var d := ml as real - 1.0;
    var q := index as real / d;
    assert q * d == index as real;
    assert 2.0 * index as real / d == 2.0 * q;
    assert 0.0 <= q <= 1.0;
    if index + 1 < ml {
      assert 2.0 * (index + 1) as real / d == 2.0 * index as real / d + 2.0 / d;
    }
  }

  /** `pos = location + r * (sin(thetaK) cos(phiK), sin(thetaK) sin(phiK), cos(thetaK))`
      with thetaK = acos(Hk) */
  function MarkerPosition(m: Libm, k: Kernel, index: int, phi: real): Vec3
    requires k.ml != 1
  {
    var theta := m.acos(Height(k.ml, index));
    var r := k.radius;
    Vec3(k.location.x + r * m.sin(theta) * m.cos(phi),
         k.location.y + r * m.sin(theta) * m.sin(phi),
         k.location.z + r * m.cos(theta))
  }

  /** With sin^2 + cos^2 == 1, every placed marker lies on the body's sphere. */
  lemma MarkerOnSphere(m: Libm, k: Kernel, index: int, phi: real)
    requires TrigLaws(m) && k.ml != 1
    ensures var d := MarkerPosition(m, k, index, phi).Sub(k.location);
            d.Dot(d) == k.radius * k.radius
  {
    var theta := m.acos(Height(k.ml, index));
    var r := k.radius;
    var s, c := m.sin(theta), m.cos(theta);
    var sp, cp := m.sin(phi), m.cos(phi);
    assert s * s + c * c == 1.0;
    assert sp * sp + cp * cp == 1.0;
    var d := MarkerPosition(m, k, index, phi).Sub(k.location);
    assert d == Vec3(r * s * cp, r * s * sp, r * c);
    SphereIdentity(r, s, c, sp, cp);
  }

  lemma SphereIdentity(r: real, s: real, c: real, sp: real, cp: real)
    requires s * s + c * c == 1.0 && sp * sp + cp * cp == 1.0
    ensures (r * s * cp) * (r * s * cp) + (r * s * sp) * (r * s * sp) + (r * c) * (r * c) == r * r
  {
    var rs := r * s;
    assert (rs * cp) * (rs * cp) + (rs * sp) * (rs * sp) == (rs * rs) * (sp * sp + cp * cp);
    assert rs * rs == (r * r) * (s * s);
    assert (r * c) * (r * c) == (r * r) * (c * c);
    assert (r * r) * (s * s) + (r * r) * (c * c) == (r * r) * (s * s + c * c);
  }

  /** With cos(acos(x)) == x, marker `index` sits at height r * Hk above the centre, so the
      first marker is the south pole and the last one the north pole. */
  lemma MarkerHeight(m: Libm, k: Kernel, index: int, phi: real)
    requires TrigLaws(m) && 2 <= k.ml && 0 <= index < k.ml
    ensures MarkerPosition(m, k, index, phi).z == k.location.z + k.radius * Height(k.ml, index)
    ensures index == 0 ==> MarkerPosition(m, k, index, phi).z == k.location.z - k.radius
    ensures index == k.ml - 1 ==> MarkerPosition(m, k, index, phi).z == k.location.z + k.radius
  {
    HeightsEvenlySpaced(k.ml, index);
    var hk := Height(k.ml, index);
    assert m.cos(m.acos(hk)) == hk;
  }

  // ---------------------------------------------------------------------------------------
  // Direct forcing and the rigid-body update

  /** `F = (bodyVel - markerVel) / dt`, the force that brings the marker to the body's velocity */
  function LagrangianForce(bodyVel: Vec3, markerVel: Vec3, dt: real): (f: Vec3)
    requires dt != 0.0
    ensures f == Zero <==> markerVel == bodyVel
    ensures markerVel.Add(f.Scale(dt)) == bodyVel
  {
    var f := Vec3((bodyVel.x - markerVel.x) / dt, (bodyVel.y - markerVel.y) / dt, (bodyVel.z - markerVel.z) / dt);
    ForceTimesStep(bodyVel.x - markerVel.x, dt);
    ForceTimesStep(bodyVel.y - markerVel.y, dt);
    ForceTimesStep(bodyVel.z - markerVel.z, dt);
    f
  }

  lemma ForceTimesStep(u: real, dt: real)
    requires dt != 0.0
    ensures dt * (u / dt) == u
    ensures u / dt == 0.0 <==> u == 0.0
  {
  }

  /** `ForceDv`: the sum over the markers of F * Dv */
  function NetForce(ms: seq<Marker>, dv: real): Vec3
    decreases |ms|
  {
    if |ms| == 0 then Zero
    else NetForce(ms[..|ms| - 1], dv).Add(ms[|ms| - 1].force.Scale(dv))
  }

  /** `Moment`: the sum over the markers of ((pos - location) x F) * Dv */
  function NetMoment(ps: seq<Vec3>, ms: seq<Marker>, location: Vec3, dv: real): Vec3
    requires |ps| == |ms|
    decreases |ms|
  {
    if |ms| == 0 then Zero
    else
      var n := |ms| - 1;
      NetMoment(ps[..n], ms[..n], location, dv).Add(ps[n].Sub(location).Cross(ms[n].force).Scale(dv))
  }

  /** every marker force is zero */
  predicate ForceFree(ms: seq<Marker>) {
    forall i :: 0 <= i < |ms| ==> ms[i].force == Zero
  }

  /** Without marker forces the body feels no net force and no net moment. */
  lemma {:induction false} ForceFreeSums(ps: seq<Vec3>, ms: seq<Marker>, location: Vec3, dv: real)
    requires |ps| == |ms| && ForceFree(ms)
    ensures NetForce(ms, dv) == Zero
    ensures NetMoment(ps, ms, location, dv) == Zero
    decreases |ms|
  {
    if |ms| > 0 {
      var n := |ms| - 1;
      assert ForceFree(ms[..n]) by {
        forall i | 0 <= i < n ensures ms[..n][i].force == Zero {
          assert ms[..n][i] == ms[i];
        }
      }
      ForceFreeSums(ps[..n], ms[..n], location, dv);
      assert ms[n].force == Zero;
    }
  }

  /** what the body update needs to be finite: a non-zero time step (it divides the marker
      forces), radius, inertia and density difference */
  predicate StepDefined(pi: real, k: Kernel, rhoFluid: real, dt: real) {
    && dt != 0.0 && pi != 0.0 && k.radius != 0.0 && k.rho != 0.0 && k.rho != rhoFluid
  }

  /** `2 alpha dt / (pi 4 r^3 / 3) / (rho - rho_f)` */
  function VelocityGain(pi: real, k: Kernel, rhoFluid: real, dt: real, alpha: real): real
    requires StepDefined(pi, k, rhoFluid, dt)
  {
    NonZeroVolume(pi, k.radius);
    2.0 * alpha * dt / SphereVolume(pi, k.radius) / (k.rho - rhoFluid)
  }

  /** `2 alpha dt rho / cal_momentum(rho, r) / (rho - rho_f)` */
  function OmegaGain(pi: real, k: Kernel, rhoFluid: real, dt: real, alpha: real): real
    requires StepDefined(pi, k, rhoFluid, dt)
  {
    NonZeroInertia(pi, k.rho, k.radius);
    2.0 * alpha * dt * k.rho / CalMomentum(pi, k.rho, k.radius) / (k.rho - rhoFluid)
  }

  lemma NonZeroVolume(pi: real, r: real)
    requires pi != 0.0 && r != 0.0
    ensures SphereVolume(pi, r) != 0.0
  {
    CubeNonZero(r, r, r);
    ProductNonZero(pi * 4.0, r * r * r);
  }

  lemma NonZeroInertia(pi: real, rho: real, r: real)
    requires pi != 0.0 && rho != 0.0 && r != 0.0
    ensures CalMomentum(pi, rho, r) != 0.0
  {
    FifthNonZero(r, r, r, r, r);
    ProductNonZero(8.0 * pi, rho);
    ProductNonZero(8.0 * pi * rho, r * r * r * r * r);
  }

  /** The body after one update from the summed marker force and moment: velocity and
      angular velocity are corrected, the centre advances by alpha dt (v_new + v_old) and the
      angle by alpha dt (omega_new + omega_old). */
  function BodyStep(pi: real, k: Kernel, rhoFluid: real, dt: real, alpha: real, forceDv: Vec3, moment: Vec3): (k': Kernel)
    requires StepDefined(pi, k, rhoFluid, dt)
    ensures k'.radius == k.radius && k'.ml == k.ml && k'.dv == k.dv && k'.rho == k.rho
    ensures k'.location == k.location.Add(Displacement(k, k'.velocity, dt, alpha))
  {
    var v := k.velocity.Sub(forceDv.Scale(VelocityGain(pi, k, rhoFluid, dt, alpha)));
    var w := k.omega.Sub(moment.Scale(OmegaGain(pi, k, rhoFluid, dt, alpha)));
    k.(velocity := v, omega := w,
       location := k.location.Add(Displacement(k, v, dt, alpha)),
       varphi := k.varphi.Add(w.Add(k.omega).Scale(alpha * dt)))
  }

  /** `deltaX = alpha dt (v_new + v_old)` */
  function Displacement(k: Kernel, newVelocity: Vec3, dt: real, alpha: real): Vec3 {
    newVelocity.Add(k.velocity).Scale(alpha * dt)
  }

  /** A body whose markers carry no force keeps its velocity and angular velocity and
      drifts by 2 alpha dt v. */
  lemma ForceFreeStep(pi: real, k: Kernel, rhoFluid: real, dt: real, alpha: real, ps: seq<Vec3>, ms: seq<Marker>)
    requires StepDefined(pi, k, rhoFluid, dt) && |ps| == |ms| && ForceFree(ms)
    ensures var k' := BodyStep(pi, k, rhoFluid, dt, alpha, NetForce(ms, k.dv), NetMoment(ps, ms, k.location, k.dv));
            && k'.velocity == k.velocity && k'.omega == k.omega
            && k'.location == k.location.Add(k.velocity.Scale(2.0 * alpha * dt))
            && k'.varphi == k.varphi.Add(k.omega.Scale(2.0 * alpha * dt))
  {
    ForceFreeSums(ps, ms, k.location, k.dv);
    var gv := VelocityGain(pi, k, rhoFluid, dt, alpha);
    var gw := OmegaGain(pi, k, rhoFluid, dt, alpha);
    assert Zero.Scale(gv) == Zero && Zero.Scale(gw) == Zero;
    assert k.velocity.Sub(Zero) == k.velocity && k.omega.Sub(Zero) == k.omega;
    DoubleScale(k.velocity, alpha * dt);
    DoubleScale(k.omega, alpha * dt);
  }

  lemma DoubleScale(v: Vec3, s: real)
    ensures v.Add(v).Scale(s) == v.Scale(2.0 * s)
  {
  }

  /** the force the second marker loop of UpdateParticles stores: `rho_p / dt * (U + tmp)`
      with tmp = omega x (location - pos) */
  function RefreshedForce(k': Kernel, p: Vec3, u: Vec3, dt: real): Vec3
    requires dt != 0.0
  {
    var tmp := k'.omega.Cross(k'.location.Sub(p));
    u.Add(tmp).Scale(k'.rho / dt)
  }
}
