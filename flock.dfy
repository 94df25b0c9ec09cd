/**
 * Boids and their flock (boid.cpp, flock.hpp, flock.cpp).
 *
 * A Boid is a Mobile that knows its flock; the Mobile part is the object
 * `body`. The flock owns its boids in order (Flock::boids) and holds the
 * parameters the flying rules read. Each Boid method changes only its own
 * body, and is proved against the value-level rules of module Steering
 * applied to the flock's snapshot: the sequence of its boids' states.
 */
module Flocking {
  import opened Geometry
  import opened Mobiles
  import opened Steering

  /**
   * The conversion of a double to int in Flock::add(x, y): truncation toward
   * zero. A value whose truncation does not fit in an int is undefined
   * behaviour in C++; this model does not bound the result.
   */
  function TruncateToInt(x: real): (r: int)
    ensures 0.0 <= x ==> r as real <= x < r as real + 1.0
    ensures x < 0.0 ==> r as real - 1.0 < x <= r as real
  {
    if 0.0 <= x then x.Floor else -((-x).Floor)
  }

  /** Vector::random(2 * maxVelocity, -maxVelocity): each component within [-maxVelocity, maxVelocity]. */
  method InitialVelocity(maxVelocity: real) returns (v: Vector)
    ensures 0.0 <= maxVelocity ==> -maxVelocity <= v.x <= maxVelocity && -maxVelocity <= v.y <= maxVelocity
  {
    v := Random(maxVelocity * 2.0, -maxVelocity);
  }

  /** The states of the bodies of some boids, in order. */
  ghost function StatesOf(bs: seq<Boid>): (r: seq<MobileState>)
    reads set j | 0 <= j < |bs| :: bs[j].body
    ensures |r| == |bs| && forall j :: 0 <= j < |bs| ==> r[j] == bs[j].body.State()
  {
    if bs == [] then [] else StatesOf(bs[..|bs| - 1]) + [bs[|bs| - 1].body.State()]
  }

  /**
   * The loop of inSight over the boids of the flock: each one the viewer
   * sees is handed to the callback, in order, and counted.
   */
  method Gather(self: MobileState, others: seq<Boid>, ghost states: seq<MobileState>,
                radius: real, fieldOfView: real, m: MathLib)
    returns (seen: seq<MobileState>, neighbors: int)
    requires m.Valid()
    requires |states| == |others| && forall j {:trigger others[j]} :: 0 <= j < |others| ==> others[j].body.State() == states[j]
    ensures seen == Visible(self, states, radius, fieldOfView, m)
    ensures neighbors == |seen|
  {
    seen, neighbors := [], 0;
    for k := 0 to |others|
      invariant seen == Visible(self, states[..k], radius, fieldOfView, m)
      invariant neighbors == |seen|
    {
      var other := others[k].body.State();
      VisibleNext(self, states, k, radius, fieldOfView, m);
      assert other == states[k];
      if Sees(self, other, radius, fieldOfView, m) {
        seen := seen + [other];
        neighbors := neighbors + 1;
      }
    }
    assert states[..|others|] == states;
  }

  /**
   * With the speed limit left indeterminate, a boid spawned within the
   * flock's limit of 0.001 can leave it: near the left edge, a limit of 1
   * lets the bounce push the speed to 0.0012.
   */
  lemma IndeterminateLimitOutrunsFlock(m: MathLib)
    requires m.Valid()
    ensures var s := MobileState(Vector(0.0001, 0.5), Vector(0.001, 0.0), false, 1.0);
      s.Stepped(m).velocity == Vector(0.0012, 0.0) && s.Stepped(m).velocity.NormSq() > Sq(0.001)
  {
    var s := MobileState(Vector(0.0001, 0.5), Vector(0.001, 0.0), false, 1.0);
    SqrtOfSquare(m, 0.001);
    assert s.velocity.NormSq() == Sq(0.001);
    var b := s.Bounced(0.005, 0.0002);
    assert b.velocity == Vector(0.0012, 0.0);
    SqrtLess(m, b.velocity.NormSq(), 1.0);
    assert b.velocity.Limit(1.0, m) == b.velocity;
  }

  /** A speed limit left at 0 instead freezes a bouncing boid where it is. */
  lemma IndeterminateLimitFreezes(s: MobileState, m: MathLib)
    requires m.Valid() && !s.wrap && s.maxVelocity == 0.0
    ensures s.Stepped(m).position == s.position
  {
    var r := s.Stepped(m);
    NoLengthIsZero(r.velocity);
    StillAfterMove(r, s.position);
  }

  /** A move by the zero velocity leaves the position where it was. */
  lemma StillAfterMove(r: MobileState, before: Vector)
    requires r.velocity == Zero && r.position.Minus(r.velocity) == before
    ensures r.position == before
  {
  }

  class Boid {
    const body: Mobile
    const isPredator: bool
    const flock: Flock

    /** Boid(flock, position, isPredator): at position, with a random velocity within the flock's limit. */
    constructor At(flock: Flock, position: Vector, isPredator: bool := false)
      ensures this.flock == flock && this.isPredator == isPredator && fresh(body)
      ensures body.position == position && body.wrap == flock.wrap && body.maxVelocity == flock.maxVelocity
      ensures 0.0 <= flock.maxVelocity ==>
        -flock.maxVelocity <= body.velocity.x <= flock.maxVelocity && -flock.maxVelocity <= body.velocity.y <= flock.maxVelocity
    {
      var velocity := InitialVelocity(flock.maxVelocity);
      body := new Mobile(position, velocity, flock.wrap, flock.maxVelocity);
      this.isPredator := isPredator;
      this.flock := flock;
    }

    /** Boid(flock, int x, int y, isPredator): at the integer point (x, y). */
    constructor AtPoint(flock: Flock, x: int, y: int, isPredator: bool := false)
      ensures this.flock == flock && this.isPredator == isPredator && fresh(body)
      ensures body.position == Vector(x as real, y as real)
      ensures body.wrap == flock.wrap && body.maxVelocity == flock.maxVelocity
      ensures 0.0 <= flock.maxVelocity ==>
        -flock.maxVelocity <= body.velocity.x <= flock.maxVelocity && -flock.maxVelocity <= body.velocity.y <= flock.maxVelocity
    {
      var velocity := InitialVelocity(flock.maxVelocity);
      body := new Mobile(Vector(x as real, y as real), velocity, flock.wrap, flock.maxVelocity);
      this.isPredator := isPredator;
      this.flock := flock;
    }

    /** Boid(flock, isPredator): at a random point of the unit square. */
    constructor (flock: Flock, isPredator: bool := false)
      ensures this.flock == flock && this.isPredator == isPredator && fresh(body)
      ensures 0.0 <= body.position.x <= 1.0 && 0.0 <= body.position.y <= 1.0
      ensures body.wrap == flock.wrap && body.maxVelocity == flock.maxVelocity
      ensures 0.0 <= flock.maxVelocity ==>
        -flock.maxVelocity <= body.velocity.x <= flock.maxVelocity && -flock.maxVelocity <= body.velocity.y <= flock.maxVelocity
    {
      var position := Random();
      var velocity := InitialVelocity(flock.maxVelocity);
      body := new Mobile(position, velocity, flock.wrap, flock.maxVelocity);
      this.isPredator := isPredator;
      this.flock := flock;
    }

    /**
     * The constructor as boid.cpp writes it: only position and velocity are
     * set, so the body's wrap flag and speed limit keep whatever values
     * their storage held. Those indeterminate values are parameters here.
     */
    constructor AsWritten(flock: Flock, position: Vector, indeterminateWrap: bool,
                          indeterminateMaxVelocity: real, isPredator: bool := false)
      ensures this.flock == flock && this.isPredator == isPredator && fresh(body)
      ensures body.position == position
      ensures body.wrap == indeterminateWrap && body.maxVelocity == indeterminateMaxVelocity
      ensures 0.0 <= flock.maxVelocity ==>
        -flock.maxVelocity <= body.velocity.x <= flock.maxVelocity && -flock.maxVelocity <= body.velocity.y <= flock.maxVelocity
    {
      var velocity := InitialVelocity(flock.maxVelocity);
      body := new Mobile(position, velocity, indeterminateWrap, indeterminateMaxVelocity);
      this.isPredator := isPredator;
      this.flock := flock;
    }

    /** This boid is member i of a well-formed flock. */
    ghost predicate Placed(i: int)
      reads flock
    {
      flock.Valid() && 0 <= i < |flock.boids| && flock.boids[i] == this
    }

    /**
     * inSight(callback, radius): the flock members handed to the callback,
     * in flock order, and their number.
     */
    method InSight(radius: real, m: MathLib) returns (seen: seq<MobileState>, neighbors: int)
      requires m.Valid()
      ensures seen == Visible(body.State(), flock.Snapshot(), radius, flock.fieldOfView, m)
      ensures neighbors == |seen|
    {
      var others := flock.Each();
      ghost var states := flock.Snapshot();
      assert forall j :: 0 <= j < |others| ==> states[j] == others[j].body.State();
      seen, neighbors := Gather(body.State(), others, states, radius, flock.fieldOfView, m);
      assert flock.Snapshot() == states;
    }

    /** `velocity += delta` on this boid, member i of its flock. */
    method Accelerate(ghost i: int, delta: Vector)
      requires Placed(i)
      modifies body
      ensures flock.Snapshot() == Accelerated(old(flock.Snapshot()), i, delta)
    {
      body.velocity := body.velocity.AddAssign(delta);
      flock.BodyChanged(i);
    }

    /**
     * What cohesion(radius, weight) adds to the velocity of boid i: the mean
     * position of the boids in sight minus its position, times weight; zero
     * when none is in sight.
     */
    method CohesionChange(ghost i: int, radius: real, weight: real, m: MathLib) returns (delta: Vector)
      requires Placed(i) && m.Valid()
      ensures var s := flock.Snapshot();
        delta == CohesionDelta(s[i], Visible(s[i], s, radius, flock.fieldOfView, m), weight)
    {
      var seen, neighbors := InSight(radius, m);
      var center := Sum(Positions(seen));
      delta := if neighbors > 0 then center.DivAssign(neighbors as real).Minus(body.position).Scale(weight) else Zero;
    }

    /** cohesion(radius, weight): steer toward the mean position of the boids in sight. */
    method Cohesion(ghost i: int, radius: real, weight: real, m: MathLib)
      requires Placed(i) && m.Valid()
      modifies body
      ensures flock.Snapshot() == Cohered(old(flock.Snapshot()), i, radius, weight, flock.fieldOfView, m)
    {
      ghost var before := flock.Snapshot();
      var delta := CohesionChange(i, radius, weight, m);
      assert flock.Snapshot() == before;
      Accelerate(i, delta);
      CoheredBy(before, i, radius, weight, flock.fieldOfView, m, delta);
    }

    /**
     * What separation adds to the velocity of boid i: the sum of its offsets
     * from the boids within the flock's separationRadius, times the flock's
     * separation.
     */
    method SeparationChange(ghost i: int, m: MathLib) returns (delta: Vector)
      requires Placed(i) && m.Valid()
      ensures var s := flock.Snapshot();
        delta == SeparationDelta(s[i], Visible(s[i], s, flock.separationRadius, flock.fieldOfView, m), flock.separation)
    {
      var seen, _ := InSight(flock.separationRadius, m);
      delta := Sum(Offsets(body.position, seen)).Scale(flock.separation);
    }

    /**
     * separation(radius, strength): both arguments are ignored; the flock's
     * separationRadius and separation are used instead.
     */
    method Separation(ghost i: int, separationRadius: real, separationStrength: real, m: MathLib)
      requires Placed(i) && m.Valid()
      modifies body
      ensures flock.Snapshot() == Separated(old(flock.Snapshot()), i, flock.Params(), m)
    {
      ghost var before := flock.Snapshot();
      var delta := SeparationChange(i, m);
      assert flock.Snapshot() == before;
      Accelerate(i, delta);
      SeparatedBy(before, i, flock.Params(), m, delta);
    }

    /**
     * What alignment(radius, strength) adds to the velocity of boid i: the
     * mean velocity of the boids in sight minus its velocity, times strength;
     * zero when none is in sight. The callback's own count is overwritten by
     * inSight's result, so the count used is the number in sight.
     */
    method AlignmentChange(ghost i: int, radius: real, strength: real, m: MathLib) returns (delta: Vector)
      requires Placed(i) && m.Valid()
      ensures var s := flock.Snapshot();
        delta == AlignmentDelta(s[i], Visible(s[i], s, radius, flock.fieldOfView, m), strength)
    {
      var seen, neighbors := InSight(radius, m);
      var sum := Sum(Velocities(seen));
      delta := if neighbors > 0 then sum.DivScalar(neighbors as real).Minus(body.velocity).Scale(strength) else Zero;
    }

    /** alignment(radius, strength): steer toward the mean velocity of the boids in sight. */
    method Alignment(ghost i: int, alignmentRadius: real, alignmentStrength: real, m: MathLib)
      requires Placed(i) && m.Valid()
      modifies body
      ensures flock.Snapshot() == Aligned(old(flock.Snapshot()), i, alignmentRadius, alignmentStrength, flock.fieldOfView, m)
    {
      ghost var before := flock.Snapshot();
      var delta := AlignmentChange(i, alignmentRadius, alignmentStrength, m);
      assert flock.Snapshot() == before;
      Accelerate(i, delta);
      AlignedBy(before, i, alignmentRadius, alignmentStrength, flock.fieldOfView, m, delta);
    }

    /** update(): Mobile::update on this boid. */
    method Update(ghost i: int, m: MathLib)
      requires Placed(i) && m.Valid()
      modifies body
      ensures flock.Snapshot() == old(flock.Snapshot())[i := old(body.State()).Stepped(m)]
    {
      body.Update(m);
      flock.BodyChanged(i);
    }

    /** One step of this boid: the three flying rules with the flock's parameters, then update(). */
    method Compute(ghost i: int, m: MathLib)
      requires Placed(i) && m.Valid()
      modifies body
      ensures flock.Snapshot() == BoidStep(old(flock.Snapshot()), i, flock.Params(), m)
    {
      Cohesion(i, flock.cohesionRadius, flock.cohesion, m);
      Separation(i, flock.separationRadius, flock.separation, m);
      Alignment(i, flock.alignmentRadius, flock.alignment, m);
      Update(i, m);
    }
  }

  class Flock {
    var cohesion: real
    var cohesionRadius: real
    var separation: real
    var separationRadius: real
    var alignment: real
    var alignmentRadius: real
    var fear: real
    var fearRadius: real
    var fieldOfView: real
    var maxVelocity: real
    var wrap: bool
    var tailLength: int
    var boids: seq<Boid>

    /**
     * Every boid belongs to this flock, has its own body and a non-negative
     * speed limit, as does the flock.
     */
    ghost predicate Valid()
      reads this
    {
      0.0 <= maxVelocity &&
      (forall j :: 0 <= j < |boids| ==> boids[j].flock == this && 0.0 <= boids[j].body.maxVelocity) &&
      (forall j, k :: 0 <= j < k < |boids| ==> boids[j].body != boids[k].body)
    }

    /** The bodies of the boids. */
    ghost function Bodies(): set<Mobile>
      reads this
    {
      set j | 0 <= j < |boids| :: boids[j].body
    }

    /** The states of the boids, in flock order. */
    ghost function Snapshot(): seq<MobileState>
      reads this, Bodies()
    {
      StatesOf(boids)
    }

    /** A change confined to the body of boid i changes only element i of the snapshot. */
    twostate lemma BodyChanged(i: int)
      requires old(Valid()) && unchanged(this) && 0 <= i < |boids|
      requires forall j :: 0 <= j < |boids| && j != i ==> unchanged(boids[j].body)
      ensures Snapshot() == old(Snapshot())[i := boids[i].body.State()]
    {
      var now, before := Snapshot(), old(Snapshot());
      assert |now| == |before|;
      forall j | 0 <= j < |boids|
        ensures now[j] == before[i := boids[i].body.State()][j]
      {
      }
    }

    /** The parameters the flying rules read. */
    function Params(): Params
      reads this
    {
      Steering.Params(cohesion, cohesionRadius, separation, separationRadius, alignment, alignmentRadius, fieldOfView)
    }

    /** A boid as Boid(flock) makes it: this flock's, at a random point with a random velocity. */
    ghost predicate Spawned(b: Boid)
      reads this, b.body
    {
      b.flock == this && !b.isPredator && b.body.wrap == wrap && b.body.maxVelocity == maxVelocity &&
      0.0 <= b.body.position.x <= 1.0 && 0.0 <= b.body.position.y <= 1.0 &&
      -maxVelocity <= b.body.velocity.x <= maxVelocity && -maxVelocity <= b.body.velocity.y <= maxVelocity
    }

    /** Flock(numBoids): the parameters of flock.hpp and numBoids new boids. */
    constructor (m: MathLib, numBoids: nat := 100)
      ensures cohesion == 0.05 && cohesionRadius == 0.075
      ensures separation == 0.05 && separationRadius == 0.025
      ensures alignment == 0.05 && alignmentRadius == 0.050
      ensures fear == 0.05 && fearRadius == 0.075
      ensures fieldOfView == 210.0 * (2.0 * (m.atan(1.0) * 4.0) / 360.0)
      ensures maxVelocity == 0.001 && !wrap && tailLength == 20
      ensures Valid() && |boids| == numBoids
      ensures forall j :: 0 <= j < numBoids ==> fresh(boids[j].body) && Spawned(boids[j])
    {
      cohesion, cohesionRadius := 0.05, 0.075;
      separation, separationRadius := 0.05, 0.025;
      alignment, alignmentRadius := 0.05, 0.050;
      fear, fearRadius := 0.05, 0.075;
      fieldOfView := 210.0 * (2.0 * (m.atan(1.0) * 4.0) / 360.0);
      maxVelocity := 0.001;
      wrap := false;
      tailLength := 20;
      boids := [];
      new;
      Init(numBoids);
    }

    /** A new boid of this flock at a random point, appended. */
    method Spawn()
      requires Valid()
      modifies this`boids
      ensures Valid() && |boids| == |old(boids)| + 1 && boids[..|old(boids)|] == old(boids)
      ensures fresh(boids[|boids| - 1].body) && Spawned(boids[|boids| - 1])
    {
      var b := new Boid(this);
      boids := boids + [b];
    }

    /** init(size): the flock is emptied, then size new boids are added. */
    method Init(size: nat)
      requires 0.0 <= maxVelocity
      modifies this`boids
      ensures Valid() && |boids| == size
      ensures forall j :: 0 <= j < size ==> fresh(boids[j].body) && Spawned(boids[j])
    {
      boids := [];
      for k := 0 to size
        invariant Valid() && |boids| == k
        invariant forall j :: 0 <= j < k ==> fresh(boids[j].body) && Spawned(boids[j])
      {
        Spawn();
      }
    }

    /** resize(size): boids are dropped from the end, or new ones added, until there are size. */
    method Resize(size: nat)
      requires Valid()
      modifies this`boids
      ensures Valid() && Size() == size
      ensures var kept := if size < |old(boids)| then size else |old(boids)|;
        boids[..kept] == old(boids)[..kept]
      ensures forall j :: |old(boids)| <= j < size ==> fresh(boids[j].body) && Spawned(boids[j])
    {
      ghost var kept := if size < |old(boids)| then size else |old(boids)|;
      while |boids| > size
        invariant Valid() && kept <= |boids| <= |old(boids)| && boids == old(boids)[..|boids|]
        decreases |boids|
      {
        boids := boids[..|boids| - 1];
      }
      while |boids| < size
        invariant Valid() && kept <= |boids| <= size && boids[..kept] == old(boids)[..kept]
        invariant forall j :: |old(boids)| <= j < |boids| ==> fresh(boids[j].body) && Spawned(boids[j])
        decreases size - |boids|
      {
        ghost var previous := boids;
        Spawn();
        assert boids[..kept] == previous[..kept];
      }
    }

    /** add(): one new boid at a random point. */
    method Add()
      requires Valid()
      modifies this`boids
      ensures Valid() && Size() == old(Size()) + 1 && boids[..|old(boids)|] == old(boids)
      ensures fresh(boids[|boids| - 1].body) && Spawned(boids[|boids| - 1])
    {
      Spawn();
    }

    /** add(x, y): one new boid at (x, y), each coordinate truncated toward zero. */
    method AddAt(x: real, y: real)
      requires Valid()
      modifies this`boids
      ensures Valid() && Size() == old(Size()) + 1 && boids[..|old(boids)|] == old(boids)
      ensures var b := boids[|boids| - 1];
        fresh(b.body) && b.flock == this && !b.isPredator &&
        b.body.position == Vector(TruncateToInt(x) as real, TruncateToInt(y) as real) &&
        b.body.wrap == wrap && b.body.maxVelocity == maxVelocity &&
        -maxVelocity <= b.body.velocity.x <= maxVelocity && -maxVelocity <= b.body.velocity.y <= maxVelocity
    {
      var b := new Boid.AtPoint(this, TruncateToInt(x), TruncateToInt(y));
      boids := boids + [b];
    }

    /** each(callback): the boids in the order the callback is called on them, each once. */
    method Each() returns (visited: seq<Boid>)
      ensures visited == boids
    {
      visited := [];
      for k := 0 to |boids|
        invariant visited == boids[..k]
      {
        visited := visited + [boids[k]];
      }
    }

    /** compute(): every boid steps in flock order, seeing the new state of the boids before it. */
    method Compute(m: MathLib)
      requires Valid() && m.Valid()
      modifies Bodies()
      ensures Valid()
      ensures Snapshot() == Sweep(FlockStep(Params(), m), old(Snapshot()), |boids|)
    {
      FlockStepStepsLike(Params(), m);
      Sweeps(m, FlockStep(Params(), m));
    }

    /** The loop of compute(), for any step that is BoidStep where BoidStep applies. */
    method Sweeps(m: MathLib, ghost step: (seq<MobileState>, int) -> seq<MobileState>)
      requires Valid() && m.Valid() && StepsLike(step, Params(), m)
      modifies Bodies()
      ensures Valid()
      ensures Snapshot() == Sweep(step, old(Snapshot()), |boids|)
    {
      ghost var start := Snapshot();
      for k := 0 to |boids|
        invariant Valid() && Snapshot() == Sweep(step, start, k)
      {
        assert boids[k].body in Bodies();
        StepBoid(k, m, step, start);
      }
    }

    /** The body of compute()'s loop: boid k steps, on the flock as the first k iterations left it. */
    method StepBoid(k: nat, m: MathLib, ghost step: (seq<MobileState>, int) -> seq<MobileState>, ghost start: seq<MobileState>)
      requires Valid() && m.Valid() && StepsLike(step, Params(), m) && k < |boids|
      requires Snapshot() == Sweep(step, start, k)
      modifies boids[k].body
      ensures Valid() && Snapshot() == Sweep(step, start, k + 1)
    {
      boids[k].Compute(k, m);
    }

    /** size(): the number of boids. */
    function Size(): nat
      reads this
    {
      |boids|
    }
  }
}
