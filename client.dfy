/**
 * The rover controller of `src/client.py`: approximate de-duplication of
 * sighted objects, the telemetry interval tracker, the choice of the point
 * to steer for near home, the steering decision, and the framing of the
 * byte stream into `;`-terminated messages.
 *
 * Numbers are exact reals here, not doubles; the wall clock, the geometry
 * helpers and the network are parameters or results (see README.md).
 */
module Client {
  import opened Wrappers
  import opened Strings
  import opened Commands

  datatype Point = Point(x: real, y: real)

  const Origin: Point := Point(0.0, 0.0)

  // ---------------------------------------------------------------------
  // Approximate equality and the obstacle map
  // ---------------------------------------------------------------------

  /** The default `precision` of `similar`. */
  const Precision: real := 0.95

  /**
   * `similar(a, b)`: `b` lies within 5% of |a| of `a`. The tolerance is
   * scaled by the FIRST argument only.
   */
  predicate Similar(a: real, b: real)
  {
    Abs(a - b) <= (1.0 - Precision) * Abs(a)
  }

  predicate SimilarPosition(p: Point, q: Point)
  {
    Similar(p.x, q.x) && Similar(p.y, q.y)
  }

  lemma SimilarReflexive(a: real)
    ensures Similar(a, a)
  {
  }

  /** A zero first argument leaves no tolerance at all. */
  lemma SimilarToZero(b: real)
    ensures Similar(0.0, b) <==> b == 0.0
  {
  }

  /** Because only |a| scales the tolerance, the relation is not symmetric. */
  lemma SimilarNotSymmetric()
    ensures Similar(100.0, 95.0) && !Similar(95.0, 100.0)
  {
  }

  datatype Kind = Boulder | Crater | Home | Martian

  /** A sighted object: the `kind` and `position` entries of its dict. */
  datatype Obstacle = Obstacle(kind: Kind, position: Point)

  /** The test inside `Map.notice`: same kind, and the NEW object's position scales the tolerance. */
  predicate Matches(stored: Obstacle, o: Obstacle)
  {
    stored.kind == o.kind && SimilarPosition(o.position, stored.position)
  }

  predicate KnownAlready(objects: seq<Obstacle>, o: Obstacle)
  {
    exists k :: 0 <= k < |objects| && Matches(objects[k], o)
  }

  /** The object list after `notice(o)`. */
  function Noticed(objects: seq<Obstacle>, o: Obstacle): (r: seq<Obstacle>)
    ensures o.kind == Martian ==> r == objects
    ensures |objects| <= |r| <= |objects| + 1 && r[..|objects|] == objects
    ensures |r| == |objects| + 1 <==> o.kind != Martian && !KnownAlready(objects, o)
    ensures |r| == |objects| + 1 ==> r[|objects|] == o
    ensures o.kind != Martian ==> exists k :: 0 <= k < |r| && Matches(r[k], o)
  {
    if o.kind == Martian then objects
    else if KnownAlready(objects, o) then objects
    else
      SimilarReflexive(o.position.x);
      SimilarReflexive(o.position.y);
      assert Matches((objects + [o])[|objects|], o);
      objects + [o]
  }

  /** The registry of sighted objects (`Map` in the source). */
  class Map {
    var objects: seq<Obstacle>

    constructor ()
      ensures objects == []
    {
      objects := [];
    }

    /** `notice`: record `o` unless it is a martian or already known (the for/else loop). */
    method Notice(o: Obstacle)
      modifies this
      ensures objects == Noticed(old(objects), o)
    {
      if o.kind == Martian {
        return;
      }
      var k := 0;
      while k < |objects|
        invariant 0 <= k <= |objects|
        invariant forall i :: 0 <= i < k ==> !Matches(objects[i], o)
      {
        if Matches(objects[k], o) {
          return;
        }
        k := k + 1;
      }
      objects := objects + [o];
    }
  }

  // ---------------------------------------------------------------------
  // Telemetry interval tracker
  // ---------------------------------------------------------------------

  /** `MAX_INTERVALS`: the window holds at most this many timestamps. */
  const MaxIntervals: nat := 3

  /** The fudge factor applied to the mean interval. */
  const Damping: real := 0.9

  /** `sum(y - x for x, y in zip(w[:-1], w[1:]))`. */
  function DeltaSum(w: seq<real>): real
  {
    if |w| < 2 then 0.0 else DeltaSum(w[..|w| - 1]) + (w[|w| - 1] - w[|w| - 2])
  }

  /** The sum of consecutive differences collapses to last minus first. */
  lemma {:induction false} DeltaSumTelescopes(w: seq<real>)
    requires |w| >= 1
    ensures DeltaSum(w) == w[|w| - 1] - w[0]
  {
    if |w| >= 2 {
      var init := w[..|w| - 1];
      DeltaSumTelescopes(init);
      assert init[|init| - 1] == w[|w| - 2] && init[0] == w[0];
    }
  }

  /** The window kept after recording `now`: append, then drop the oldest beyond capacity. */
  function NextWindow(window: seq<real>, now: real): (r: seq<real>)
    ensures |r| >= 1 && r[|r| - 1] == now
    ensures |r| == if |window| + 1 > MaxIntervals then |window| else |window| + 1
    ensures r[..|r| - 1] == window[|window| + 1 - |r|..]
    ensures |window| <= MaxIntervals ==> |r| <= MaxIntervals
  {
    var intervals := window + [now];
    if |intervals| > MaxIntervals then intervals[1..] else intervals
  }

  /** `avg_interval` after recording `now` on top of `window`. */
  function DampedInterval(window: seq<real>, now: real): (r: real)
    ensures window == [] ==> r == 0.0
    ensures window != [] ==> r == Damping * (now - window[0]) / (|window| as real)
  {
    var intervals := window + [now];
    if |intervals| > 1 then
      DeltaSumTelescopes(intervals);
      DeltaSum(intervals) / ((|intervals| - 1) as real) * Damping
    else 0.0
  }

  /** Updates at t = 0, 1, 2 give a mean interval of 1 times the damping factor. */
  lemma IntervalsAtZeroOneTwo()
    ensures NextWindow(NextWindow(NextWindow([], 0.0), 1.0), 2.0) == [0.0, 1.0, 2.0]
    ensures DampedInterval(NextWindow(NextWindow([], 0.0), 1.0), 2.0) == Damping
  {
    assert NextWindow([], 0.0) == [0.0];
    assert NextWindow([0.0], 1.0) == [0.0, 1.0];
  }

  /** The controller state that `recordCommunicationsData` maintains. */
  class RoverController {
    var telemetryIntervals: seq<real>
    var avgInterval: real

    constructor ()
      ensures telemetryIntervals == [] && avgInterval == 0.0
    {
      telemetryIntervals := [];
      avgInterval := 0.0;
    }

    /** Record a telemetry arrival at wall-clock time `now`. */
    method RecordCommunicationsData(now: real)
      modifies this
      ensures telemetryIntervals == NextWindow(old(telemetryIntervals), now)
      ensures avgInterval == DampedInterval(old(telemetryIntervals), now)
    {
      var intervals := telemetryIntervals + [now];
      avgInterval := 0.0;
      if |intervals| > 1 {
        var deltaSum := 0.0;
        var k := 1;
        while k < |intervals|
          invariant 1 <= k <= |intervals|
          invariant deltaSum == DeltaSum(intervals[..k])
        {
          assert intervals[..k + 1][..k] == intervals[..k];
          deltaSum := deltaSum + (intervals[k] - intervals[k - 1]);
          k := k + 1;
        }
        assert intervals[..k] == intervals;
        avgInterval := deltaSum / ((|intervals| - 1) as real);
      }
      telemetryIntervals := intervals;
      if |intervals| > MaxIntervals {
        telemetryIntervals := intervals[1..];
      }
      avgInterval := avgInterval * Damping;
    }
  }

  // ---------------------------------------------------------------------
  // Home point
  // ---------------------------------------------------------------------

  /**
   * `math.sin(math.pi / 4) * 5`: the exact value of the double it evaluates
   * to (printed 3.5355339059327373). It lies just below 5/sqrt(2), so the
   * diagonal points are slightly nearer the centre than the axis points.
   */
  const HalfDiagonal: real := 3.535533905932737308575042334268800914287567138671875

  /** `BASE_POINTS`: (-5, 0) appears twice and (0, -5) not at all. */
  const BasePoints: seq<Point> := [
    Point(-5.0, 0.0), Point(0.0, 5.0), Point(5.0, 0.0), Point(-5.0, 0.0),
    Point(HalfDiagonal, HalfDiagonal), Point(HalfDiagonal, -HalfDiagonal),
    Point(-HalfDiagonal, -HalfDiagonal), Point(-HalfDiagonal, HalfDiagonal)]

  /** Squared distance between two points. */
  function NormSq(p: Point, q: Point): real
  {
    (p.x - q.x) * (p.x - q.x) + (p.y - q.y) * (p.y - q.y)
  }

  /** `k` is the first index of `pts` at maximal squared distance from `pos`, as `max` picks it. */
  predicate IsFirstFarthest(pos: Point, pts: seq<Point>, k: int)
  {
    && 0 <= k < |pts|
    && (forall j :: 0 <= j < |pts| ==> NormSq(pos, pts[j]) <= NormSq(pos, pts[k]))
    && (forall j :: 0 <= j < k ==> NormSq(pos, pts[j]) < NormSq(pos, pts[k]))
  }

  /** `max(distances, key=...)`: a later point replaces the best only when strictly farther. */
  function FirstFarthest(pos: Point, pts: seq<Point>): (k: nat)
    requires |pts| > 0
    ensures IsFirstFarthest(pos, pts, k)
  {
    if |pts| == 1 then 0
    else
      var b := FirstFarthest(pos, pts[..|pts| - 1]);
      if NormSq(pos, pts[|pts| - 1]) > NormSq(pos, pts[b]) then |pts| - 1 else b
  }

  /** `findHomePoint`, with the rover's position as a parameter. */
  function FindHomePoint(position: Point): (r: Point)
    ensures position.x * position.x + position.y * position.y > 400.0 ==> r == Origin
    ensures position.x * position.x + position.y * position.y <= 400.0 ==>
      exists k :: IsFirstFarthest(position, BasePoints, k) && r == BasePoints[k]
  {
    if position.x * position.x + position.y * position.y > 400.0 then Origin
    else BasePoints[FirstFarthest(position, BasePoints)]
  }

  /** The repeated (-5, 0) at index 3 can never be the one chosen. */
  lemma DuplicateBasePointNeverChosen(position: Point)
    ensures FirstFarthest(position, BasePoints) != 3
  {
    assert BasePoints[0] == BasePoints[3];
  }

  /**
   * At the centre every axis point is 5 away and every diagonal point a little
   * less, so the first entry, (-5, 0), is the home point.
   */
  lemma HomePointAtCentre()
    ensures FindHomePoint(Point(0.0, 0.0)) == Point(-5.0, 0.0)
  {
    var centre := Point(0.0, 0.0);
    var k := FirstFarthest(centre, BasePoints);
    assert NormSq(centre, BasePoints[0]) == 25.0;
    assert 2.0 * (HalfDiagonal * HalfDiagonal) < 25.0;
    assert k == 0;
  }

  /** Since (0, -5) is missing from the ring, it is never the steering target. */
  lemma HomePointNeverSouth(position: Point)
    ensures FindHomePoint(position) != Point(0.0, -5.0)
  {
    if position.x * position.x + position.y * position.y <= 400.0 {
      var k := FirstFarthest(position, BasePoints);
      assert BasePoints[k] != Point(0.0, -5.0);
    }
  }

  // ---------------------------------------------------------------------
  // Steering
  // ---------------------------------------------------------------------

  /** `PROCESSING_TIME` as `client.py` defines it. */
  const ProcessingTime: real := 0.015

  /** Below this many degrees `steerToPoint` only straightens out. */
  const StraightAngle: real := 5.0

  /**
   * `steerToPoint`: `turnAngle` and `t` are what `mars_math.steer_to_point`
   * returned, `turning` and `avgInterval` the controller's state. The message
   * sent now and the compensation scheduled are returned.
   */
  function SteerToPoint(turnAngle: Angle, t: real, turning: char, avgInterval: real): (r: Result<Decision, SteerError>)
    ensures r.Err? <==> !GuardPasses(turnAngle)
    ensures r.Ok? ==> r.value.immediate.accel == Accelerate
    ensures r.Ok? && r.value.deferred.Some? ==> r.value.deferred.value.command.accel == Accelerate
    ensures r.Ok? && Abs(turnAngle.degrees) < StraightAngle ==>
      && r.value.deferred.None?
      && r.value.immediate.turn == (if turning == 'L' then Some(Right) else if turning == 'R' then Some(Left) else None)
    ensures r.Ok? && Abs(turnAngle.degrees) >= StraightAngle ==>
      r.value.immediate.turn == Some(if turnAngle.radians < 0.0 then Right else Left)
    ensures r.Ok? && r.value.deferred.Some? ==>
      && 0.0 < t - ProcessingTime < avgInterval
      && r.value.deferred.value.delay == t - ProcessingTime
      && r.value.immediate.turn.Some?
      && r.value.deferred.value.command.turn == Some(Opposite(r.value.immediate.turn.value))
    ensures r.Ok? && Abs(turnAngle.degrees) >= StraightAngle && 0.0 < t - ProcessingTime < avgInterval ==>
      r.value.deferred.Some?
  {
    if !GuardPasses(turnAngle) then Err(InvalidTurnAngle(turnAngle.radians))
    else
      var compensateTime := t - ProcessingTime;
      if Abs(turnAngle.degrees) < StraightAngle then
        if turning == 'L' then Ok(Decision(Command(Accelerate, Some(Right)), None))
        else if turning == 'R' then Ok(Decision(Command(Accelerate, Some(Left)), None))
        else Ok(Decision(Command(Accelerate, None), None))
      else
        var now := if turnAngle.radians < 0.0 then Right else Left;
        var later :=
          if 0.0 < compensateTime < avgInterval
          then Some(Deferred(compensateTime, Command(Accelerate, Some(Opposite(now)))))
          else None;
        Ok(Decision(Command(Accelerate, Some(now)), later))
  }

  // ---------------------------------------------------------------------
  // Stream framing
  // ---------------------------------------------------------------------

  /** A complete message: ends in `;` and holds no other `;`. */
  predicate IsFrame(m: seq<char>)
  {
    |m| > 0 && m[|m| - 1] == ';' && ';' !in m[..|m| - 1]
  }

  predicate AllFrames(ms: seq<seq<char>>)
  {
    forall k :: 0 <= k < |ms| ==> IsFrame(ms[k])
  }

  /** The text up to and including the first `;` is a frame, and the rest follows it. */
  lemma FirstFrameCut(buf: seq<char>, i: nat)
    requires FirstIndex(buf, ';') == Some(i)
    ensures IsFrame(buf[..i + 1]) && buf == buf[..i + 1] + buf[i + 1..]
  {
    assert buf[..i + 1][..i] == buf[..i];
  }

  /** Moving a frame from the head of the buffer to the message list keeps the text. */
  lemma FramesGrow(msgs: seq<seq<char>>, msg: seq<char>, rest: seq<char>, text: seq<char>)
    requires AllFrames(msgs) && IsFrame(msg) && Concat(msgs) + (msg + rest) == text
    ensures AllFrames(msgs + [msg]) && Concat(msgs + [msg]) + rest == text
  {
    ConcatAppend(msgs, msg);
    assert Concat(msgs) + (msg + rest) == Concat(msgs) + msg + rest;
  }

  /** Two frames at the head of the same text are the same frame. */
  lemma FirstFrameDetermined(a: seq<char>, x: seq<char>, b: seq<char>, y: seq<char>)
    requires IsFrame(a) && IsFrame(b) && a + x == b + y
    ensures a == b && x == y
  {
    assert a == (a + x)[..|a|] && b == (b + y)[..|b|];
    assert x == (a + x)[|a|..] && y == (b + y)[|b|..];
  }

  /** A text without `;` cannot start with a frame. */
  lemma NoFrameInPlainText(m: seq<char>, rest: seq<char>, text: seq<char>)
    requires IsFrame(m) && text == m + rest
    ensures ';' in text
  {
    assert text[|m| - 1] == ';';
  }

  /**
   * What `dataReceived` leaves is determined: at most one split of a text
   * into complete frames followed by a `;`-free remainder exists.
   */
  lemma {:induction false} FramingIsUnique(ms1: seq<seq<char>>, rest1: seq<char>, ms2: seq<seq<char>>, rest2: seq<char>)
    requires AllFrames(ms1) && AllFrames(ms2)
    requires ';' !in rest1 && ';' !in rest2
    requires Concat(ms1) + rest1 == Concat(ms2) + rest2
    ensures ms1 == ms2 && rest1 == rest2
  {
    if ms1 == [] && ms2 == [] {
      assert Concat(ms1) == [] && Concat(ms2) == [];
      assert rest1 == Concat(ms1) + rest1 && rest2 == Concat(ms2) + rest2;
    } else if ms1 == [] {
      assert Concat(ms2) + rest2 == ms2[0] + (Concat(ms2[1..]) + rest2);
      NoFrameInPlainText(ms2[0], Concat(ms2[1..]) + rest2, rest1);
    } else if ms2 == [] {
      assert Concat(ms1) + rest1 == ms1[0] + (Concat(ms1[1..]) + rest1);
      NoFrameInPlainText(ms1[0], Concat(ms1[1..]) + rest1, rest2);
    } else {
      assert Concat(ms1) + rest1 == ms1[0] + (Concat(ms1[1..]) + rest1);
      assert Concat(ms2) + rest2 == ms2[0] + (Concat(ms2[1..]) + rest2);
      FirstFrameDetermined(ms1[0], Concat(ms1[1..]) + rest1, ms2[0], Concat(ms2[1..]) + rest2);
      assert AllFrames(ms1[1..]) && AllFrames(ms2[1..]);
      FramingIsUnique(ms1[1..], rest1, ms2[1..], rest2);
      assert ms1 == [ms1[0]] + ms1[1..] && ms2 == [ms2[0]] + ms2[1..];
    }
  }

  /** The protocol end of the client: its buffer of not yet framed characters. */
  class TwistedClient {
    var buf: seq<char>

    constructor ()
      ensures buf == []
    {
      buf := [];
    }

    /**
     * `dataReceived`: append `data` to the buffer and cut off every complete
     * message, in order. The messages, which the source hands to the parser
     * one by one, are returned.
     */
    method DataReceived(data: seq<char>) returns (msgs: seq<seq<char>>)
      modifies this
      ensures AllFrames(msgs)
      ensures Concat(msgs) + buf == old(buf) + data
      ensures ';' !in buf
    {
      buf := buf + data;
      msgs := [];
      while true
        invariant AllFrames(msgs)
        invariant Concat(msgs) + buf == old(buf) + data
        decreases |buf|
      {
        var idx := FirstIndex(buf, ';');
        if idx.None? {
          break;
        }
        var msg, rest := buf[..idx.value + 1], buf[idx.value + 1..];
        FirstFrameCut(buf, idx.value);
        FramesGrow(msgs, msg, rest, old(buf) + data);
        buf := rest;
        msgs := msgs + [msg];
      }
    }
  }
}
