/**
 * The vocabulary shared by the two steering deciders: the acceleration and
 * turn symbols that a control message carries, a message as the pair of
 * them, a message scheduled for later, and the turn angle reported by the
 * geometry layer.
 */
module Commands {
  import opened Wrappers

  /** The acceleration symbol of a control message. */
  datatype Accel = Accelerate | Brake | Roll

  /** The turn symbol of a control message. */
  datatype Turn = Left | Right

  /** One outbound control message: `Message.create(accel)` or `Message.create(accel, turn)`. */
  datatype Command = Command(accel: Accel, turn: Option<Turn>)

  /** A `reactor.callLater(delay, ...)` that sends `command` after `delay` seconds. */
  datatype Deferred = Deferred(delay: real, command: Command)

  /** Everything one steering call does: the message sent now and the one it schedules, if any. */
  datatype Decision = Decision(immediate: Command, deferred: Option<Deferred>)

  /** A turn angle as the geometry layer hands it over: both readings are inputs. */
  datatype Angle = Angle(radians: real, degrees: real)

  /** The steering guard refused the turn angle (the source's failing `assert`). */
  datatype SteerError = InvalidTurnAngle(radians: real)

  /** `math.pi`, as the double it is. */
  const Pi: real := 3.141592653589793

  /** The bound of the guard `abs(turn_angle.radians < math.pi * 1.01)`. */
  const TurnAngleBound: real := Pi * 1.01

  function Opposite(t: Turn): (r: Turn)
    ensures r != t
  {
    match t
    case Left => Right
    case Right => Left
  }

  function Abs(x: real): (r: real)
    ensures r >= 0.0 && (r == x || r == -x)
  {
    if x < 0.0 then -x else x
  }

  /**
   * The guard evaluates `abs` of the BOOLEAN `radians < bound`, so it fails
   * only when `radians >= bound`; a very negative angle passes.
   */
  predicate GuardPasses(a: Angle)
  {
    a.radians < TurnAngleBound
  }
}
