/**
 * The flying rules of boid.cpp as functions on values: which flock members
 * a boid sees (inSight), the velocity change of cohesion, separation and
 * alignment, one boid's full step, and the in-order sweep of
 * Flock::compute. The Boid and Flock classes are proved against these.
 *
 * A flock is seen as the sequence of its members' MobileStates, in the
 * order of Flock::boids; the stepping boid is one of them (index i) and is
 * not excluded from what it sees.
 */
module Steering {
  import opened Geometry
  import opened Mobiles

  /** The flock parameters the flying rules read (flock.hpp). */
  datatype Params = Params(cohesion: real, cohesionRadius: real,
                           separation: real, separationRadius: real,
                           alignment: real, alignmentRadius: real,
                           fieldOfView: real)

  /**
   * The field-of-view test of inSight: the bearing to the other boid lies
   * strictly within fieldOfView / 2 of the heading. atan2 is uninterpreted,
   * so nothing more is known of this test.
   */
  predicate InFieldOfView(self: MobileState, other: MobileState, fieldOfView: real, m: MathLib) {
    var heading := self.velocity.Angle(m);
    var a := self.position.AngleTo(other.position, m);
    heading - fieldOfView / 2.0 < a < heading + fieldOfView / 2.0
  }

  /** The open interval of bearings is empty for a field of view that is not positive: nothing is in sight. */
  lemma NarrowFieldSeesNothing(self: MobileState, other: MobileState, fieldOfView: real, m: MathLib)
    requires fieldOfView <= 0.0
    ensures !InFieldOfView(self, other, fieldOfView, m)
  {
  }

  /** inSight's test for one flock member: strictly closer than radius and in the field of view. */
  predicate Sees(self: MobileState, other: MobileState, radius: real, fieldOfView: real, m: MathLib)
    requires m.Valid()
  {
    self.DistanceTo(other, m) < radius && InFieldOfView(self, other, fieldOfView, m)
  }

  /**
   * The flock members inSight hands to its callback, in flock order: exactly
   * the members the boid sees.
   */
  function Visible(self: MobileState, flock: seq<MobileState>, radius: real, fieldOfView: real, m: MathLib)
    : (r: seq<MobileState>)
    requires m.Valid()
    ensures |r| <= |flock|
  {
    if flock == [] then []
    else
      var last := flock[|flock| - 1];
      Visible(self, flock[..|flock| - 1], radius, fieldOfView, m)
        + (if Sees(self, last, radius, fieldOfView, m) then [last] else [])
  }

  /** A state is handed to the callback exactly when it is a flock member the boid sees. */
  lemma {:induction false} VisibleExactly(self: MobileState, flock: seq<MobileState>, radius: real, fieldOfView: real,
                                          m: MathLib)
    requires m.Valid()
    ensures forall o :: o in Visible(self, flock, radius, fieldOfView, m) <==> o in flock && Sees(self, o, radius, fieldOfView, m)
    decreases |flock|
  {
    if flock != [] {
      var init := flock[..|flock| - 1];
      VisibleExactly(self, init, radius, fieldOfView, m);
      assert flock == init + [flock[|flock| - 1]];
    }
  }

  /** One more member of the flock is seen or passed over. */
  lemma VisibleNext(self: MobileState, flock: seq<MobileState>, k: int, radius: real, fieldOfView: real, m: MathLib)
    requires m.Valid() && 0 <= k < |flock|
    ensures Visible(self, flock[..k + 1], radius, fieldOfView, m)
      == Visible(self, flock[..k], radius, fieldOfView, m)
         + (if Sees(self, flock[k], radius, fieldOfView, m) then [flock[k]] else [])
  {
    assert flock[..k + 1][..k] == flock[..k];
  }

  /** Filtering keeps the flock order: what is seen of a + b is what is seen of a, then of b. */
  lemma {:induction false} VisibleConcat(self: MobileState, a: seq<MobileState>, b: seq<MobileState>,
                                         radius: real, fieldOfView: real, m: MathLib)
    requires m.Valid()
    ensures Visible(self, a + b, radius, fieldOfView, m)
         == Visible(self, a, radius, fieldOfView, m) + Visible(self, b, radius, fieldOfView, m)
    decreases |b|
  {
    if b == [] {
      assert a + b == a;
    } else {
      var b' := b[..|b| - 1];
      assert (a + b)[..|a + b| - 1] == a + b';
      VisibleConcat(self, a, b', radius, fieldOfView, m);
    }
  }

  /** The sum of a sequence of vectors, accumulated front to back as the callbacks do. */
  function Sum(vs: seq<Vector>): Vector {
    if vs == [] then Zero else Sum(vs[..|vs| - 1]).AddAssign(vs[|vs| - 1])
  }

  /** The positions of some flock members, in order. */
  function Positions(s: seq<MobileState>): (r: seq<Vector>)
    ensures |r| == |s| && forall j :: 0 <= j < |s| ==> r[j] == s[j].position
  {
    seq(|s|, j requires 0 <= j < |s| => s[j].position)
  }

  /** The velocities of some flock members, in order. */
  function Velocities(s: seq<MobileState>): (r: seq<Vector>)
    ensures |r| == |s| && forall j :: 0 <= j < |s| ==> r[j] == s[j].velocity
  {
    seq(|s|, j requires 0 <= j < |s| => s[j].velocity)
  }

  /** The offsets position - other.position that separation accumulates, in order. */
  function Offsets(position: Vector, s: seq<MobileState>): (r: seq<Vector>)
    ensures |r| == |s| && forall j :: 0 <= j < |s| ==> r[j] == position.Minus(s[j].position)
  {
    seq(|s|, j requires 0 <= j < |s| => position.Minus(s[j].position))
  }

  /** The mean of a non-empty sequence of vectors: the sum divided by the count. */
  function Mean(vs: seq<Vector>): Vector
    requires vs != []
  {
    Sum(vs).DivAssign(|vs| as real)
  }

  /** cohesion: steer by weight toward the mean position of the boids in sight, if any. */
  function CohesionDelta(self: MobileState, seen: seq<MobileState>, weight: real): Vector {
    if |seen| > 0 then Mean(Positions(seen)).Minus(self.position).Scale(weight) else Zero
  }

  /** separation: the sum of the offsets from the boids in sight, times the strength. */
  function SeparationDelta(self: MobileState, seen: seq<MobileState>, strength: real): Vector {
    Sum(Offsets(self.position, seen)).Scale(strength)
  }

  /** alignment: steer by strength toward the mean velocity of the boids in sight, if any. */
  function AlignmentDelta(self: MobileState, seen: seq<MobileState>, strength: real): Vector {
    if |seen| > 0 then Sum(Velocities(seen)).DivScalar(|seen| as real).Minus(self.velocity).Scale(strength) else Zero
  }

  /** Boid i's velocity increased by delta (`velocity += delta`); nothing else changes. */
  function Accelerated(flock: seq<MobileState>, i: int, delta: Vector): (r: seq<MobileState>)
    requires 0 <= i < |flock|
    ensures |r| == |flock| && r[i].position == flock[i].position
    ensures r[i].wrap == flock[i].wrap && r[i].maxVelocity == flock[i].maxVelocity
    ensures r[i].velocity.Minus(flock[i].velocity) == delta
    ensures forall j :: 0 <= j < |flock| && j != i ==> r[j] == flock[j]
  {
    flock[i := flock[i].(velocity := flock[i].velocity.AddAssign(delta))]
  }

  /** The flock after boid i's cohesion(radius, weight). */
  function Cohered(flock: seq<MobileState>, i: int, radius: real, weight: real, fieldOfView: real, m: MathLib)
    : seq<MobileState>
    requires 0 <= i < |flock| && m.Valid()
  {
    Accelerated(flock, i, CohesionDelta(flock[i], Visible(flock[i], flock, radius, fieldOfView, m), weight))
  }

  /** The flock after boid i's separation: radius and strength come from the flock parameters. */
  function Separated(flock: seq<MobileState>, i: int, p: Params, m: MathLib): seq<MobileState>
    requires 0 <= i < |flock| && m.Valid()
  {
    Accelerated(flock, i, SeparationDelta(flock[i], Visible(flock[i], flock, p.separationRadius, p.fieldOfView, m), p.separation))
  }

  /** The flock after boid i's alignment(radius, strength). */
  function Aligned(flock: seq<MobileState>, i: int, radius: real, strength: real, fieldOfView: real, m: MathLib)
    : seq<MobileState>
    requires 0 <= i < |flock| && m.Valid()
  {
    Accelerated(flock, i, AlignmentDelta(flock[i], Visible(flock[i], flock, radius, fieldOfView, m), strength))
  }

  /** Cohesion of boid i is the acceleration by its cohesion delta. */
  lemma CoheredBy(flock: seq<MobileState>, i: int, radius: real, weight: real, fieldOfView: real, m: MathLib, delta: Vector)
    requires 0 <= i < |flock| && m.Valid()
    requires delta == CohesionDelta(flock[i], Visible(flock[i], flock, radius, fieldOfView, m), weight)
    ensures Cohered(flock, i, radius, weight, fieldOfView, m) == Accelerated(flock, i, delta)
  {
  }

  /** Separation of boid i is the acceleration by its separation delta. */
  lemma SeparatedBy(flock: seq<MobileState>, i: int, p: Params, m: MathLib, delta: Vector)
    requires 0 <= i < |flock| && m.Valid()
    requires delta == SeparationDelta(flock[i], Visible(flock[i], flock, p.separationRadius, p.fieldOfView, m), p.separation)
    ensures Separated(flock, i, p, m) == Accelerated(flock, i, delta)
  {
  }

  /** Alignment of boid i is the acceleration by its alignment delta. */
  lemma AlignedBy(flock: seq<MobileState>, i: int, radius: real, strength: real, fieldOfView: real, m: MathLib, delta: Vector)
    requires 0 <= i < |flock| && m.Valid()
    requires delta == AlignmentDelta(flock[i], Visible(flock[i], flock, radius, fieldOfView, m), strength)
    ensures Aligned(flock, i, radius, strength, fieldOfView, m) == Accelerated(flock, i, delta)
  {
  }

  /**
   * One boid's step: cohesion, separation and alignment with the flock's
   * parameters, each seeing the flock as the previous rule left it, then
   * Mobile::update. Only boid i changes, it keeps its flags, and its new
   * speed is within its limit.
   */
  function BoidStep(flock: seq<MobileState>, i: int, p: Params, m: MathLib): (r: seq<MobileState>)
    requires 0 <= i < |flock| && m.Valid() && 0.0 <= flock[i].maxVelocity
    ensures |r| == |flock| && forall j :: 0 <= j < |flock| && j != i ==> r[j] == flock[j]
    ensures r[i].wrap == flock[i].wrap && r[i].maxVelocity == flock[i].maxVelocity
    ensures r[i].velocity.NormSq() <= Sq(flock[i].maxVelocity)
  {
    var cohered := Cohered(flock, i, p.cohesionRadius, p.cohesion, p.fieldOfView, m);
    var separated := Separated(cohered, i, p, m);
    var aligned := Aligned(separated, i, p.alignmentRadius, p.alignment, p.fieldOfView, m);
    aligned[i := aligned[i].Stepped(m)]
  }

  /**
   * BoidStep as a total function of the flock and an index: where BoidStep
   * does not apply (an index out of range, a negative speed limit) the
   * flock is left as it is.
   */
  ghost function FlockStep(p: Params, m: MathLib): (seq<MobileState>, int) -> seq<MobileState> {
    (flock: seq<MobileState>, i: int) =>
      if 0 <= i < |flock| && m.Valid() && 0.0 <= flock[i].maxVelocity then BoidStep(flock, i, p, m) else flock
  }

  /** A step that is BoidStep wherever BoidStep applies. */
  ghost predicate StepsLike(step: (seq<MobileState>, int) -> seq<MobileState>, p: Params, m: MathLib) {
    forall flock: seq<MobileState>, i: int {:trigger BoidStep(flock, i, p, m)} ::
      0 <= i < |flock| && m.Valid() && 0.0 <= flock[i].maxVelocity ==> step(flock, i) == BoidStep(flock, i, p, m)
  }

  /** FlockStep is BoidStep wherever BoidStep applies. */
  lemma FlockStepStepsLike(p: Params, m: MathLib)
    ensures StepsLike(FlockStep(p, m), p, m)
  {
    forall flock: seq<MobileState>, i: int | 0 <= i < |flock| && m.Valid() && 0.0 <= flock[i].maxVelocity
      ensures FlockStep(p, m)(flock, i) == BoidStep(flock, i, p, m)
    {
    }
  }

  /** A step that changes at most member i of the flock, and keeps that member's speed limit. */
  ghost predicate Local(step: (seq<MobileState>, int) -> seq<MobileState>) {
    forall flock: seq<MobileState>, i: int :: 0 <= i < |flock| ==>
      |step(flock, i)| == |flock| && step(flock, i)[i].maxVelocity == flock[i].maxVelocity &&
      forall j :: 0 <= j < |flock| && j != i ==> step(flock, i)[j] == flock[j]
  }

  /** A step after which member i is within its (non-negative) speed limit. */
  ghost predicate Limiting(step: (seq<MobileState>, int) -> seq<MobileState>) {
    forall flock: seq<MobileState>, i: int :: 0 <= i < |flock| && 0.0 <= flock[i].maxVelocity && i < |step(flock, i)| ==>
      step(flock, i)[i].velocity.NormSq() <= Sq(flock[i].maxVelocity)
  }

  /** The boid step changes only the stepping boid, and leaves it within its speed limit. */
  lemma FlockStepIsLocal(p: Params, m: MathLib)
    requires m.Valid()
    ensures Local(FlockStep(p, m)) && Limiting(FlockStep(p, m))
  {
    var step := FlockStep(p, m);
    forall flock: seq<MobileState>, i: int | 0 <= i < |flock|
      ensures |step(flock, i)| == |flock| && step(flock, i)[i].maxVelocity == flock[i].maxVelocity
      ensures forall j :: 0 <= j < |flock| && j != i ==> step(flock, i)[j] == flock[j]
    {
    }
    forall flock: seq<MobileState>, i: int | 0 <= i < |flock| && 0.0 <= flock[i].maxVelocity && i < |step(flock, i)|
      ensures step(flock, i)[i].velocity.NormSq() <= Sq(flock[i].maxVelocity)
    {
    }
  }

  /**
   * Flock::compute after its first k iterations: members 0 .. k-1 have
   * been stepped in order, each seeing the new state of the ones before it.
   */
  ghost function Sweep(step: (seq<MobileState>, int) -> seq<MobileState>, flock: seq<MobileState>, k: nat)
    : seq<MobileState>
  {
    if k == 0 then flock else step(Sweep(step, flock, k - 1), k - 1)
  }

  /** A sweep with a local step keeps the flock's size and every member's speed limit. */
  lemma {:induction false} SweepShape(step: (seq<MobileState>, int) -> seq<MobileState>, flock: seq<MobileState>, k: nat)
    requires Local(step) && k <= |flock|
    ensures |Sweep(step, flock, k)| == |flock|
    ensures forall j :: 0 <= j < |flock| ==> Sweep(step, flock, k)[j].maxVelocity == flock[j].maxVelocity
  {
    if k > 0 {
      SweepShape(step, flock, k - 1);
    }
  }

  /** Members the sweep has not reached yet are untouched. */
  lemma {:induction false} SweepLeavesRest(step: (seq<MobileState>, int) -> seq<MobileState>, flock: seq<MobileState>, k: nat)
    requires Local(step) && k <= |flock|
    ensures |Sweep(step, flock, k)| == |flock|
    ensures forall j :: k <= j < |flock| ==> Sweep(step, flock, k)[j] == flock[j]
  {
    if k > 0 {
      SweepLeavesRest(step, flock, k - 1);
    }
  }

  /** A member the sweep has passed keeps the state it was stepped to. */
  lemma {:induction false} SweepKeepsDone(step: (seq<MobileState>, int) -> seq<MobileState>, flock: seq<MobileState>,
                                          j: nat, k: nat)
    requires Local(step) && j < k <= |flock|
    ensures |Sweep(step, flock, k)| == |Sweep(step, flock, j + 1)| == |flock|
    ensures Sweep(step, flock, k)[j] == Sweep(step, flock, j + 1)[j]
    decreases k
  {
    SweepShape(step, flock, k);
    SweepShape(step, flock, j + 1);
    if k > j + 1 {
      SweepKeepsDone(step, flock, j, k - 1);
    }
  }

  /**
   * The order of Flock::compute: when member k steps, it sees the members
   * before it in their final state of this sweep and the members after it
   * in their old state.
   */
  lemma SweepView(step: (seq<MobileState>, int) -> seq<MobileState>, flock: seq<MobileState>, k: nat)
    requires Local(step) && k <= |flock|
    ensures |Sweep(step, flock, |flock|)| == |flock|
    ensures Sweep(step, flock, k) == Sweep(step, flock, |flock|)[..k] + flock[k..]
  {
    var n := |flock|;
    SweepShape(step, flock, n);
    SweepLeavesRest(step, flock, k);
    forall j | 0 <= j < k
      ensures Sweep(step, flock, k)[j] == Sweep(step, flock, n)[j]
    {
      SweepKeepsDone(step, flock, j, k);
      SweepKeepsDone(step, flock, j, n);
    }
  }

  /** After a whole sweep every member with a non-negative speed limit is within it. */
  lemma SweepLimitsSpeed(step: (seq<MobileState>, int) -> seq<MobileState>, flock: seq<MobileState>)
    requires Local(step) && Limiting(step)
    ensures var r := Sweep(step, flock, |flock|);
      |r| == |flock| &&
      forall j :: 0 <= j < |flock| && 0.0 <= flock[j].maxVelocity ==> r[j].velocity.NormSq() <= Sq(flock[j].maxVelocity)
  {
    var r := Sweep(step, flock, |flock|);
    SweepShape(step, flock, |flock|);
    forall j | 0 <= j < |flock| && 0.0 <= flock[j].maxVelocity
      ensures r[j].velocity.NormSq() <= Sq(flock[j].maxVelocity)
    {
      SweepKeepsDone(step, flock, j, |flock|);
      SweepLeavesRest(step, flock, j);
    }
  }

  /** Summing a concatenation adds the two sums. */
  lemma {:induction false} SumConcat(a: seq<Vector>, b: seq<Vector>)
    ensures Sum(a + b) == Sum(a).Plus(Sum(b))
    decreases |b|
  {
    if b == [] {
      assert a + b == a;
    } else {
      var b' := b[..|b| - 1];
      assert (a + b)[..|a + b| - 1] == a + b';
      SumConcat(a, b');
    }
  }

  /** A vector repeated n times sums to n times the vector. */
  lemma {:induction false} SumOfCopies(vs: seq<Vector>, v: Vector)
    requires forall j :: 0 <= j < |vs| ==> vs[j] == v
    ensures Sum(vs) == v.Scale(|vs| as real)
    decreases |vs|
  {
    if vs != [] {
      SumOfCopies(vs[..|vs| - 1], v);
    }
  }

  /** Scaling by n + 1 is scaling by n and adding the vector once more. */
  lemma ScaleByNext(v: Vector, n: real)
    ensures v.Scale(n + 1.0) == v.Scale(n).Plus(v)
  {
  }

  /** The separation sum is the count times the own position minus the summed positions. */
  lemma {:induction false} OffsetsSum(position: Vector, s: seq<MobileState>)
    ensures Sum(Offsets(position, s)) == position.Scale(|s| as real).Minus(Sum(Positions(s)))
    decreases |s|
  {
    if s == [] {
      assert position.Scale(0.0) == Zero;
    } else {
      var s' := s[..|s| - 1];
      assert Offsets(position, s)[..|s| - 1] == Offsets(position, s');
      assert Positions(s)[..|s| - 1] == Positions(s');
      OffsetsSum(position, s');
      var n' := |s'| as real;
      ScaleByNext(position, n');
      assert n' + 1.0 == |s| as real;
    }
  }

  /** Product(a, n + 1) is Product(a, n) plus a. */
  lemma ProductByNext(a: real, n: real)
    ensures Product(a, n + 1.0) == Product(a, n) + a
  {
  }

  /** The summed coordinates of n vectors in a box lie between n times the box corners. */
  lemma {:induction false} SumWithinBox(vs: seq<Vector>, lo: Vector, hi: Vector)
    requires forall j :: 0 <= j < |vs| ==> lo.x <= vs[j].x <= hi.x && lo.y <= vs[j].y <= hi.y
    ensures var n := |vs| as real;
      Product(lo.x, n) <= Sum(vs).x <= Product(hi.x, n) && Product(lo.y, n) <= Sum(vs).y <= Product(hi.y, n)
    decreases |vs|
  {
    if vs == [] {
      assert Product(lo.x, 0.0) == 0.0 && Product(hi.x, 0.0) == 0.0;
      assert Product(lo.y, 0.0) == 0.0 && Product(hi.y, 0.0) == 0.0;
    } else {
      var vs' := vs[..|vs| - 1];
      SumWithinBox(vs', lo, hi);
      var n' := |vs'| as real;
      ProductByNext(lo.x, n');
      ProductByNext(hi.x, n');
      ProductByNext(lo.y, n');
      ProductByNext(hi.y, n');
      assert n' + 1.0 == |vs| as real;
    }
  }

  /** A quotient by a positive n of a value between lo * n and hi * n lies between lo and hi. */
  lemma QuotientWithin(a: real, n: real, lo: real, hi: real)
    requires 0.0 < n
    ensures Product(lo, n) <= a <= Product(hi, n) ==> lo <= a / n <= hi
  {
    DivThenMul(a, n);
    assert Product(a / n, n) == a;
    if a / n < lo {
      ProductStrict(a / n, lo, n);
    }
    if hi < a / n {
      ProductStrict(hi, a / n, n);
    }
  }

  /** The mean of vectors in a box is in the box. */
  lemma MeanWithinBox(vs: seq<Vector>, lo: Vector, hi: Vector)
    requires vs != []
    requires forall j :: 0 <= j < |vs| ==> lo.x <= vs[j].x <= hi.x && lo.y <= vs[j].y <= hi.y
    ensures lo.x <= Mean(vs).x <= hi.x && lo.y <= Mean(vs).y <= hi.y
  {
    var n := |vs| as real;
    SumWithinBox(vs, lo, hi);
    QuotientWithin(Sum(vs).x, n, lo.x, hi.x);
    QuotientWithin(Sum(vs).y, n, lo.y, hi.y);
  }

  /**
   * cohesion steers toward a point of the bounding box of the boids in
   * sight: the velocity change is weight times (c - position) for such a c.
   */
  lemma CohesionTowardGroup(self: MobileState, seen: seq<MobileState>, weight: real, lo: Vector, hi: Vector)
    requires seen != []
    requires forall o :: o in seen ==> lo.x <= o.position.x <= hi.x && lo.y <= o.position.y <= hi.y
    ensures exists c: Vector ::
      (lo.x <= c.x <= hi.x && lo.y <= c.y <= hi.y && CohesionDelta(self, seen, weight) == c.Minus(self.position).Scale(weight))
  {
    var ps := Positions(seen);
    forall j | 0 <= j < |ps|
      ensures lo.x <= ps[j].x <= hi.x && lo.y <= ps[j].y <= hi.y
    {
      assert seen[j] in seen;
    }
    MeanWithinBox(ps, lo, hi);
    var c := Mean(ps);
    assert CohesionDelta(self, seen, weight) == c.Minus(self.position).Scale(weight);
  }

  /** A boid that sees only itself gets no cohesion. */
  lemma CohesionAlone(self: MobileState, weight: real)
    ensures CohesionDelta(self, [self], weight) == Zero
  {
    assert Positions([self]) == [self.position];
    assert Sum([self.position]) == Zero.AddAssign(self.position) by {
      assert [self.position][..0] == [];
    }
  }

  /**
   * separation pushes away from the centre of the boids in sight: the
   * velocity change is strength times n (position - mean position).
   */
  lemma SeparationFromCentre(self: MobileState, seen: seq<MobileState>, strength: real)
    requires seen != []
    ensures var n := |seen| as real;
      SeparationDelta(self, seen, strength) == self.position.Minus(Mean(Positions(seen))).Scale(n).Scale(strength)
  {
    var n := |seen| as real;
    var sum := Sum(Positions(seen));
    OffsetsSum(self.position, seen);
    DivThenMul(sum.x, n);
    DivThenMul(sum.y, n);
    assert self.position.Minus(Mean(Positions(seen))).Scale(n)
        == self.position.Scale(n).Minus(sum) by {
      assert (self.position.x - sum.x / n) * n == self.position.x * n - (sum.x / n) * n;
      assert (self.position.y - sum.y / n) * n == self.position.y * n - (sum.y / n) * n;
    }
  }

  /** alignment steers toward a velocity in the bounding box of the velocities in sight. */
  lemma AlignmentTowardGroup(self: MobileState, seen: seq<MobileState>, strength: real, lo: Vector, hi: Vector)
    requires seen != []
    requires forall o :: o in seen ==> lo.x <= o.velocity.x <= hi.x && lo.y <= o.velocity.y <= hi.y
    ensures exists c: Vector ::
      (lo.x <= c.x <= hi.x && lo.y <= c.y <= hi.y && AlignmentDelta(self, seen, strength) == c.Minus(self.velocity).Scale(strength))
  {
    var vs := Velocities(seen);
    forall j | 0 <= j < |vs|
      ensures lo.x <= vs[j].x <= hi.x && lo.y <= vs[j].y <= hi.y
    {
      assert seen[j] in seen;
    }
    MeanWithinBox(vs, lo, hi);
    var c := Mean(vs);
    assert AlignmentDelta(self, seen, strength) == c.Minus(self.velocity).Scale(strength);
  }

  /** A boid already flying like every boid it sees keeps its velocity under alignment. */
  lemma AlignedKeepsVelocity(self: MobileState, seen: seq<MobileState>, strength: real)
    requires forall o :: o in seen ==> o.velocity == self.velocity
    ensures AlignmentDelta(self, seen, strength) == Zero
  {
    if seen != [] {
      var vs := Velocities(seen);
      var n := |seen| as real;
      forall j | 0 <= j < |vs|
        ensures vs[j] == self.velocity
      {
        assert seen[j] in seen;
      }
      SumOfCopies(vs, self.velocity);
      MulThenDivide(self.velocity.x, n);
      MulThenDivide(self.velocity.y, n);
      assert Sum(vs).DivScalar(n) == self.velocity;
    }
  }
}
