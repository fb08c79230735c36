/**
 * `waitForNetworkIdle` on a discrete clock: subscribing at time `t0` arms a
 * timer for `t0 + quietMs`; every resource event observed before the timer
 * fires re-arms it for the event's time plus `quietMs`; when the clock
 * reaches the armed time the gate stops observing and resolves, once.
 *
 * Times are integers (milliseconds). An event observed at the very moment
 * the timer is due comes after the timer: the gate has already resolved.
 */
module IdleGate {
  import opened Optional

  predicate Sorted(s: seq<int>)
  {
    forall i, j :: 0 <= i < j < |s| ==> s[i] <= s[j]
  }

  lemma SortedSnoc(s: seq<int>, e: int)
    requires Sorted(s) && forall i :: 0 <= i < |s| ==> s[i] <= e
    ensures Sorted(s + [e])
  {
  }

  /**
   * When the timer is due after subscribing at `start` and observing the
   * resource events at the (non-decreasing) times `events`, as long as the
   * gate has not resolved: each event strictly before the current deadline
   * moves it to the event's time plus `quietMs`.
   */
  function Deadline(start: int, quietMs: nat, events: seq<int>): int
    decreases |events|
  {
    if events == [] then start + quietMs
    else
      var d := Deadline(start, quietMs, events[..|events| - 1]);
      var e := events[|events| - 1];
      if e < d then e + quietMs else d
  }

  /**
   * The quiet window: the deadline is `quietMs` after the subscription or
   * after one of the events, never earlier than `start + quietMs`, and no
   * event falls strictly inside the `quietMs` before it.
   */
  lemma {:induction false} QuietWindow(start: int, quietMs: nat, events: seq<int>)
    requires Sorted(events)
    requires forall i :: 0 <= i < |events| ==> start <= events[i]
    ensures start + quietMs <= Deadline(start, quietMs, events)
    ensures Deadline(start, quietMs, events) == start + quietMs ||
      exists i :: 0 <= i < |events| && Deadline(start, quietMs, events) == events[i] + quietMs
    ensures forall i :: 0 <= i < |events| ==>
      events[i] <= Deadline(start, quietMs, events) - quietMs || Deadline(start, quietMs, events) <= events[i]
    decreases |events|
  {
    if events != [] {
      var n := |events| - 1;
      var front := events[..n];
      assert forall i :: 0 <= i < n ==> front[i] == events[i];
      QuietWindow(start, quietMs, front);
      var d := Deadline(start, quietMs, front);
      if events[n] < d {
        assert Deadline(start, quietMs, events) == events[n] + quietMs;
        assert forall i :: 0 <= i < n ==> events[i] <= events[n];
      } else {
        assert Deadline(start, quietMs, events) == d;
        if d != start + quietMs {
          var i :| 0 <= i < n && d == front[i] + quietMs;
          assert d == events[i] + quietMs;
        }
      }
    }
  }

  /** One call of `waitForNetworkIdle`: its observer, its timer and its promise. */
  class Gate {
    /** `idleMs`. */
    const quietMs: nat
    /** The subscription time. */
    ghost const start: int
    /** Times of all resource events delivered since subscribing, observed or not. */
    ghost var seen: seq<int>
    /** The clock. */
    var now: int
    /** When the armed timer is due. */
    var deadline: int
    /** `Some(t)` once the promise resolved, at time `t`. */
    var resolvedAt: Option<int>

    ghost predicate Valid()
      reads this
    {
      && start <= now
      && Sorted(seen)
      && (forall i :: 0 <= i < |seen| ==> start <= seen[i] <= now)
      && deadline == Deadline(start, quietMs, seen)
      && (resolvedAt.None? ==> now <= deadline)
      && (resolvedAt.Some? ==> resolvedAt.value == deadline && deadline <= now)
    }

    /**
     * Subscribing at `t0`: the observer starts and the first `resetTimer()`
     * arms the timer for `t0 + quietMs` (the script calls
     * `waitForNetworkIdle(2000)`, so `quietMs` is 2000).
     */
    constructor Subscribe(t0: int, quietMs: nat)
      ensures Valid()
      ensures this.quietMs == quietMs && start == t0 && now == t0 && seen == []
      ensures deadline == t0 + quietMs && resolvedAt == None
    {
      this.quietMs := quietMs;
      start := t0;
      now := t0;
      seen := [];
      deadline := t0 + quietMs;
      resolvedAt := None;
    }

    /**
     * The clock reaches `t` with no resource event on the way. The timer
     * fires, and the gate resolves, exactly when it has not resolved yet and
     * `t` is at or past the deadline; it then resolves at the deadline, after
     * a full quiet window.
     */
    method Tick(t: int) returns (fired: bool)
      requires Valid() && now <= t
      modifies this
      ensures Valid()
      ensures now == t && seen == old(seen) && deadline == old(deadline)
      ensures fired <==> old(resolvedAt).None? && deadline <= t
      ensures resolvedAt == if fired then Some(deadline) else old(resolvedAt)
      ensures fired ==> forall i :: 0 <= i < |seen| ==> seen[i] <= deadline - quietMs || deadline <= seen[i]
    {
      fired := resolvedAt.None? && deadline <= t;
      if fired {
        resolvedAt := Some(deadline);
      }
      now := t;
      QuietWindow(start, quietMs, seen);
    }

    /**
     * A resource event delivered at time `e`. Before the deadline it re-arms
     * the timer for `e + quietMs`; at or after the deadline the timer has
     * fired first and the gate resolved at the deadline; once resolved the
     * observer is disconnected and the event changes nothing.
     */
    method Observe(e: int) returns (fired: bool)
      requires Valid() && now <= e
      modifies this
      ensures Valid()
      ensures now == e && seen == old(seen) + [e]
      ensures fired <==> old(resolvedAt).None? && old(deadline) <= e
      ensures old(resolvedAt).None? && e < old(deadline) ==> deadline == e + quietMs && resolvedAt == None
      ensures fired ==> deadline == old(deadline) && resolvedAt == Some(deadline)
      ensures old(resolvedAt).Some? ==> deadline == old(deadline) && resolvedAt == old(resolvedAt)
    {
      ghost var before := seen;
      SortedSnoc(before, e);
      assert (before + [e])[..|before|] == before;
      assert Deadline(start, quietMs, before + [e]) == if e < deadline then e + quietMs else deadline;
      fired := resolvedAt.None? && deadline <= e;
      if fired {
        resolvedAt := Some(deadline);
      } else if resolvedAt.None? {
        deadline := e + quietMs;
      }
      now := e;
      seen := before + [e];
    }
  }
}
