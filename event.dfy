/**
 * The time-ordered event queue of `src/event.py`: a list kept sorted by
 * event time, extended by append-then-stable-sort and consumed from the front.
 */
module Event {
  import opened Wrappers

  /** `LARGE_NUM`: what `next_time` answers for an empty queue. */
  const LargeNum: real := 1000000.0

  /** A scheduled callback; the callback and its arguments are opaque here. */
  datatype Event<T> = Event(callback: T, time: real)

  datatype QueueError = PopFromEmpty

  predicate Sorted<T>(q: seq<Event<T>>)
  {
    forall i, j :: 0 <= i < j < |q| ==> q[i].time <= q[j].time
  }

  /** Where a stable sort puts a new event with time `t`: after every event not later than `t`. */
  function InsertionPoint<T>(q: seq<Event<T>>, t: real): (k: nat)
    ensures k <= |q|
  {
    if q == [] || q[|q| - 1].time <= t then |q| else InsertionPoint(q[..|q| - 1], t)
  }

  /** In a sorted queue the insertion point separates the events up to `t` from the later ones. */
  lemma {:induction false} InsertionPointSplits<T>(q: seq<Event<T>>, t: real)
    requires Sorted(q)
    ensures forall i :: 0 <= i < InsertionPoint(q, t) ==> q[i].time <= t
    ensures forall i :: InsertionPoint(q, t) <= i < |q| ==> q[i].time > t
  {
    if q != [] && q[|q| - 1].time > t {
      var init := q[..|q| - 1];
      InsertionPointSplits(init, t);
    }
  }

  /** Inserting at the insertion point keeps a sorted queue sorted. */
  lemma InsertKeepsSorted<T>(q: seq<Event<T>>, e: Event<T>)
    requires Sorted(q)
    ensures Sorted(q[..InsertionPoint(q, e.time)] + [e] + q[InsertionPoint(q, e.time)..])
  {
    var k := InsertionPoint(q, e.time);
    InsertionPointSplits(q, e.time);
    var r := q[..k] + [e] + q[k..];
    forall i, j | 0 <= i < j < |r|
      ensures r[i].time <= r[j].time
    {
      if j < k {
        assert r[i] == q[i] && r[j] == q[j];
      } else if j == k {
        assert r[i] == q[i];
      } else if i < k {
        assert r[i] == q[i] && r[j] == q[j - 1];
      } else if i == k {
        assert r[j] == q[j - 1];
      } else {
        assert r[i] == q[i - 1] && r[j] == q[j - 1];
      }
    }
  }

  /** The scan that places a new event: step back over every later event. */
  method FindInsertionPoint<T>(q: seq<Event<T>>, t: real) returns (k: nat)
    ensures k == InsertionPoint(q, t)
  {
    k := |q|;
    assert q[..k] == q;
    while k > 0 && q[k - 1].time > t
      invariant 0 <= k <= |q|
      invariant InsertionPoint(q, t) == InsertionPoint(q[..k], t)
    {
      assert q[..k - 1] == q[..k][..k - 1];
      k := k - 1;
    }
    assert q[..k] == q[..k][..k];
  }

  class EventQueue<T> {
    var queue: seq<Event<T>>

    ghost predicate Valid()
      reads this
    {
      Sorted(queue)
    }

    constructor ()
      ensures Valid() && queue == []
    {
      queue := [];
    }

    /**
     * `insert`: append, then sort stably by time. The old events keep their
     * order, and the new one lands after every event with the same time.
     */
    method Insert(e: Event<T>)
      requires Valid()
      modifies this
      ensures Valid()
      ensures queue == old(queue)[..InsertionPoint(old(queue), e.time)] + [e] + old(queue)[InsertionPoint(old(queue), e.time)..]
      ensures multiset(queue) == multiset(old(queue)) + multiset{e}
    {
      var k := FindInsertionPoint(queue, e.time);
      InsertKeepsSorted(queue, e);
      assert queue == queue[..k] + queue[k..];
      queue := queue[..k] + [e] + queue[k..];
    }

    /** `pop`: remove and return the earliest event; an empty queue raises. */
    method Pop() returns (r: Result<Event<T>, QueueError>)
      requires Valid()
      modifies this
      ensures Valid()
      ensures old(queue) == [] ==> r == Err(PopFromEmpty) && queue == []
      ensures old(queue) != [] ==> r == Ok(old(queue)[0]) && queue == old(queue)[1..]
    {
      if queue == [] {
        return Err(PopFromEmpty);
      }
      r := Ok(queue[0]);
      queue := queue[1..];
    }

    /**
     * `next_time`: seconds from `now` until the earliest event, or
     * `LargeNum` when nothing is queued.
     */
    function NextTime(now: real): (r: real)
      requires Valid()
      reads this
      ensures queue == [] ==> r == LargeNum
      ensures queue != [] ==> (exists i :: 0 <= i < |queue| && r == queue[i].time - now)
      ensures forall i :: 0 <= i < |queue| ==> r <= queue[i].time - now
    {
      if queue == [] then LargeNum else queue[0].time - now
    }
  }
}
