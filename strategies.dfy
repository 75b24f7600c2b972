/**
 * `basic_strategy` of `src/strategies.py`: the decision part of the steering
 * strategy. `mars_math.find_heading` supplies the turn angle, the turn
 * duration `t`, the distance to the origin and the force flag;
 * `determineAcceleration` supplies `accel`. What the strategy sends now and
 * what it schedules are returned as a `Decision`.
 */
module Strategies {
  import opened Wrappers
  import opened Commands
  import Client

  /** `SMALL_ANGLE`: below this many degrees the rover keeps its course. */
  const SmallAngle: real := 10.0

  /** `FORCE_TURN_DIST`: closer than this to the origin, small angles no longer keep the course. */
  const ForceTurnDist: real := 40.0

  /** The test that keeps the course: no forced turn, a small angle, far from home. */
  predicate KeepsCourse(turnAngle: Angle, originDist: real, forceTurn: bool)
  {
    !forceTurn && Abs(turnAngle.degrees) < SmallAngle && originDist > ForceTurnDist
  }

  /** The turn symbol sent while keeping course, from the turning state the simulator reported. */
  function CourseCorrection(turning: char, degrees: real): Option<Turn>
  {
    if turning == 'L' || (turning == 'l' && degrees < 0.0) then Some(Right)
    else if turning == 'R' || (turning == 'r' && degrees < 0.0) then Some(Left)
    else None
  }

  /**
   * `basic_strategy(rover)`. The compensating turn is scheduled after `t`
   * itself (the processing-time correction is commented out in the source).
   */
  function BasicStrategy(turnAngle: Angle, t: real, originDist: real, forceTurn: bool, accel: Accel,
                         turning: char, avgInterval: real): (r: Result<Decision, SteerError>)
    ensures r.Err? <==> !GuardPasses(turnAngle)
    ensures r.Ok? ==> r.value.immediate.accel == accel
    ensures r.Ok? && r.value.deferred.Some? ==> r.value.deferred.value.command.accel == accel
    ensures r.Ok? && KeepsCourse(turnAngle, originDist, forceTurn) ==>
      && r.value.deferred.None?
      && (r.value.immediate.turn == Some(Right) <==>
            turning == 'L' || (turning == 'l' && turnAngle.degrees < 0.0))
      && (r.value.immediate.turn == Some(Left) <==>
            turning != 'L' && !(turning == 'l' && turnAngle.degrees < 0.0)
            && (turning == 'R' || (turning == 'r' && turnAngle.degrees < 0.0)))
    ensures r.Ok? && !KeepsCourse(turnAngle, originDist, forceTurn) ==>
      r.value.immediate.turn == Some(if turnAngle.radians < 0.0 then Right else Left)
    ensures r.Ok? && r.value.deferred.Some? ==>
      && 0.0 < t < avgInterval
      && r.value.deferred.value.delay == t
      && r.value.immediate.turn.Some?
      && r.value.deferred.value.command.turn == Some(Opposite(r.value.immediate.turn.value))
    ensures r.Ok? && !KeepsCourse(turnAngle, originDist, forceTurn) && 0.0 < t < avgInterval ==>
      r.value.deferred.Some?
  {
    if !GuardPasses(turnAngle) then Err(InvalidTurnAngle(turnAngle.radians))
    else
      var compensateTime := t;
      if KeepsCourse(turnAngle, originDist, forceTurn) then
        Ok(Decision(Command(accel, CourseCorrection(turning, turnAngle.degrees)), None))
      else
        var now := if turnAngle.radians < 0.0 then Right else Left;
        var later :=
          if 0.0 < compensateTime < avgInterval
          then Some(Deferred(compensateTime, Command(accel, Some(Opposite(now)))))
          else None;
        Ok(Decision(Command(accel, Some(now)), later))
  }

  /** A forced turn always turns, whatever the angle and the distance to home. */
  lemma ForcedTurnTurns(turnAngle: Angle, t: real, originDist: real, accel: Accel, turning: char, avgInterval: real)
    requires GuardPasses(turnAngle)
    ensures BasicStrategy(turnAngle, t, originDist, true, accel, turning, avgInterval).Ok?
    ensures BasicStrategy(turnAngle, t, originDist, true, accel, turning, avgInterval).value.immediate.turn.Some?
  {
  }

  /**
   * The turning state the simulator reports matters only while keeping
   * course: otherwise two states give the same decision.
   */
  lemma TurningStateOnlyCorrectsCourse(turnAngle: Angle, t: real, originDist: real, forceTurn: bool,
                                       accel: Accel, turning1: char, turning2: char, avgInterval: real)
    requires !KeepsCourse(turnAngle, originDist, forceTurn)
    ensures BasicStrategy(turnAngle, t, originDist, forceTurn, accel, turning1, avgInterval)
         == BasicStrategy(turnAngle, t, originDist, forceTurn, accel, turning2, avgInterval)
  {
  }

  /**
   * On a turn of at least `SmallAngle` degrees, `basic_strategy` with the
   * `ACCELERATE` symbol sends what `steerToPoint` sends; the two differ only
   * in when the compensation fires (`t` against `t - PROCESSING_TIME`).
   */
  lemma LargeTurnsAgreeWithSteerToPoint(turnAngle: Angle, t: real, originDist: real, forceTurn: bool,
                                        turning: char, avgInterval: real)
    requires Abs(turnAngle.degrees) >= SmallAngle
    ensures
      var basic := BasicStrategy(turnAngle, t, originDist, forceTurn, Accelerate, turning, avgInterval);
      var steer := Client.SteerToPoint(turnAngle, t, turning, avgInterval);
      && basic.Ok? == steer.Ok?
      && (basic.Ok? ==> basic.value.immediate == steer.value.immediate)
  {
  }
}
