/**
 * Moving bodies of the simulation (mobile.cpp): a position and a velocity
 * in the unit square, a boundary policy (wrap around or bounce off the
 * edges) and a maximum speed.
 *
 * MobileState is the value of a Mobile's fields; the pure queries (speed,
 * distanceTo) and the specifications of the state-changing methods are
 * defined on it. The class Mobile holds the fields and its methods change
 * them in place.
 */
module Mobiles {
  import opened Geometry

  /** The fields of a Mobile (mobile.hpp): position, velocity, wrap flag and speed limit. */
  datatype MobileState = MobileState(position: Vector, velocity: Vector, wrap: bool, maxVelocity: real) {

    /** speed(): the norm of the velocity. */
    function Speed(m: MathLib): (r: real)
      requires m.Valid()
      ensures 0.0 <= r && Sq(r) == velocity.NormSq()
      ensures r == 0.0 <==> velocity == Zero
    {
      velocity.Norm(m)
    }

    /**
     * distanceTo(other): toroidal distance in the unit square when this
     * mobile wraps around, Euclidean distance otherwise; either way never
     * more than the Euclidean distance.
     */
    function DistanceTo(other: MobileState, m: MathLib): (r: real)
      requires m.Valid()
      ensures 0.0 <= r <= position.Distance(other.position, m)
      ensures !wrap ==> r == position.Distance(other.position, m)
      ensures wrap ==> r == position.ToroidalDistance(other.position, 1.0, 1.0, m)
    {
      if wrap then
        ToroidalDistanceWithinDistance(position, other.position, 1.0, 1.0, m);
        position.ToroidalDistance(other.position, 1.0, 1.0, m)
      else
        position.Distance(other.position, m)
    }

    /**
     * The state after bounce(margin, turnFactor): each velocity component
     * gains turnFactor when its coordinate is below margin and loses it when
     * the coordinate is above 1 - margin; the four tests are independent.
     */
    function Bounced(margin: real, turnFactor: real): (r: MobileState)
      ensures r.position == position && r.wrap == wrap && r.maxVelocity == maxVelocity
      // never pushed toward the nearer edge
      ensures 0.0 <= turnFactor ==>
        (position.x < 0.5 ==> r.velocity.x >= velocity.x) && (position.x > 0.5 ==> r.velocity.x <= velocity.x) &&
        (position.y < 0.5 ==> r.velocity.y >= velocity.y) && (position.y > 0.5 ==> r.velocity.y <= velocity.y)
      // away from both margins, or inside both at once, a component is kept
      ensures (position.x < margin) == (position.x > 1.0 - margin) ==> r.velocity.x == velocity.x
      ensures (position.y < margin) == (position.y > 1.0 - margin) ==> r.velocity.y == velocity.y
      // inside exactly one margin, a component turns by exactly turnFactor, away from that edge
      ensures position.x < margin && !(position.x > 1.0 - margin) ==> r.velocity.x == velocity.x + turnFactor
      ensures position.x > 1.0 - margin && !(position.x < margin) ==> r.velocity.x == velocity.x - turnFactor
      ensures position.y < margin && !(position.y > 1.0 - margin) ==> r.velocity.y == velocity.y + turnFactor
      ensures position.y > 1.0 - margin && !(position.y < margin) ==> r.velocity.y == velocity.y - turnFactor
    {
      var vx := velocity.x + (if position.x < margin then turnFactor else 0.0);
      var vy := velocity.y + (if position.y < margin then turnFactor else 0.0);
      var vx' := vx - (if position.x > 1.0 - margin then turnFactor else 0.0);
      var vy' := vy - (if position.y > 1.0 - margin then turnFactor else 0.0);
      this.(velocity := Vector(vx', vy'))
    }

    /**
     * The state after wrap(): a coordinate below 0 gains 1, then a
     * coordinate above 1 loses 1; the velocity is untouched.
     */
    function Wrapped(): (r: MobileState)
      ensures r.velocity == velocity && r.wrap == wrap && r.maxVelocity == maxVelocity
      ensures r.position == Vector(WrapCoordinate(position.x), WrapCoordinate(position.y))
    {
      this.(position := Vector(WrapCoordinate(position.x), WrapCoordinate(position.y)))
    }

    /**
     * The state after update(): exactly one boundary policy (wrap, or bounce
     * with margin 5 * speed and turn factor speed / 5, both taken before the
     * bounce), then the velocity is limited to maxVelocity, then the position
     * moves by that limited velocity.
     */
    function Stepped(m: MathLib): (r: MobileState)
      requires m.Valid() && 0.0 <= maxVelocity
      ensures r.wrap == wrap && r.maxVelocity == maxVelocity
      ensures r.velocity.NormSq() <= Sq(maxVelocity)
      // one boundary policy, the bounce taking both margins from the speed before it, then the limit
      ensures r.velocity == (if wrap then Wrapped() else Bounced(Speed(m) * 5.0, Speed(m) / 5.0)).velocity.Limit(maxVelocity, m)
      ensures r.position.Minus(r.velocity) == (if wrap then Wrapped() else this).position
    {
      var speed := Speed(m);
      var s := if wrap then Wrapped() else Bounced(speed * 5.0, speed / 5.0);
      var v := s.velocity.Limit(maxVelocity, m);
      s.(velocity := v, position := s.position.AddAssign(v))
    }
  }

  /** One coordinate of wrap(): the two tests of mobile.cpp in their order. */
  function WrapCoordinate(c: real): (r: real)
    ensures -1.0 <= c <= 2.0 ==> 0.0 <= r <= 1.0
    ensures 0.0 <= c <= 1.0 ==> r == c
    ensures c < 0.0 ==> r == c + 1.0
    ensures c > 1.0 ==> r == c - 1.0
  {
    var c' := if c < 0.0 then c + 1.0 else c;
    if c' > 1.0 then c' - 1.0 else c'
  }

  /** A Mobile: a position and a velocity changed in place by its methods. */
  class Mobile {
    var position: Vector
    var velocity: Vector
    const wrap: bool
    const maxVelocity: real

    /** The current fields as a value. */
    function State(): MobileState
      reads this
    {
      MobileState(position, velocity, wrap, maxVelocity)
    }

    constructor (position: Vector, velocity: Vector, wrap: bool, maxVelocity: real)
      ensures State() == MobileState(position, velocity, wrap, maxVelocity)
    {
      this.position := position;
      this.velocity := velocity;
      this.wrap := wrap;
      this.maxVelocity := maxVelocity;
    }

    /** bounce(margin, turnFactor): steers the velocity away from the edges. */
    method Bounce(margin: real, turnFactor: real)
      modifies this
      ensures State() == old(State()).Bounced(margin, turnFactor)
    {
      if position.x < margin {
        velocity := velocity.AddAssign(Vector(turnFactor, 0.0));
      }
      if position.y < margin {
        velocity := velocity.AddAssign(Vector(0.0, turnFactor));
      }
      if position.x > 1.0 - margin {
        velocity := velocity.SubAssign(Vector(turnFactor, 0.0));
      }
      if position.y > 1.0 - margin {
        velocity := velocity.SubAssign(Vector(0.0, turnFactor));
      }
    }

    /** wrap(): brings a position that left the unit square back from the other side. */
    method Wrap()
      modifies this
      ensures State() == old(State()).Wrapped()
    {
      if position.x < 0.0 {
        position := Vector(position.x + 1.0, position.y);
      }
      if position.y < 0.0 {
        position := Vector(position.x, position.y + 1.0);
      }
      if position.x > 1.0 {
        position := Vector(position.x - 1.0, position.y);
      }
      if position.y > 1.0 {
        position := Vector(position.x, position.y - 1.0);
      }
    }

    /** update(): boundary policy, speed limit, then one integration step. */
    method Update(m: MathLib)
      requires m.Valid() && 0.0 <= maxVelocity
      modifies this
      ensures State() == old(State()).Stepped(m)
    {
      ghost var before := State();
      var speed := State().Speed(m);
      if wrap {
        Wrap();
      } else {
        Bounce(speed * 5.0, speed / 5.0);
      }
      ghost var policed := State();
      assert policed == if wrap then before.Wrapped() else before.Bounced(speed * 5.0, speed / 5.0);
      velocity := velocity.Limit(maxVelocity, m);
      position := position.AddAssign(velocity);
      assert State() == policed.(velocity := policed.velocity.Limit(maxVelocity, m),
                                 position := policed.position.AddAssign(policed.velocity.Limit(maxVelocity, m)));
    }
  }

  /** After an update the speed is at most maxVelocity. */
  lemma UpdateLimitsSpeed(s: MobileState, m: MathLib)
    requires m.Valid() && 0.0 <= s.maxVelocity
    ensures s.Stepped(m).Speed(m) <= s.maxVelocity
  {
    var r := s.Stepped(m);
    SqrtLess(m, r.velocity.NormSq(), s.maxVelocity);
  }

  /**
   * In wrap mode the position is wrapped before the step, so after an
   * update from a position in [-1, 2] x [-1, 2] the position minus the new
   * velocity lies in the unit square: the mobile is at most one step outside.
   */
  lemma WrapModeStepsFromUnitSquare(s: MobileState, m: MathLib)
    requires m.Valid() && 0.0 <= s.maxVelocity && s.wrap
    requires -1.0 <= s.position.x <= 2.0 && -1.0 <= s.position.y <= 2.0
    ensures var r := s.Stepped(m);
      0.0 <= r.position.x - r.velocity.x <= 1.0 && 0.0 <= r.position.y - r.velocity.y <= 1.0
  {
  }

  /**
   * The wrap happens before the integration: a mobile at x = 0.999 moving
   * right at 0.01 ends the update at x = 1.009, outside the unit square,
   * and is only brought back on the next update.
   */
  lemma WrapStepOvershoots(m: MathLib)
    requires m.Valid()
    ensures var s := MobileState(Vector(0.999, 0.5), Vector(0.01, 0.0), true, 0.01);
      s.Stepped(m).position == Vector(1.009, 0.5)
  {
    var v := Vector(0.01, 0.0);
    assert v.NormSq() == Sq(0.01) by {
      assert Sq(0.0) == 0.0;
    }
    SqrtOfSquare(m, 0.01);
    assert v.Limit(0.01, m) == v;
  }
}
