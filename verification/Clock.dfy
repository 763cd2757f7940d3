/** The logical clock of clock.c. */
module LogicalClock {
  import opened Sequences

  const INITIAL_VALUE := 0
  const INCREMENT_VALUE := 1

  /** The clock after one event: a local step, or a message that carries a remote clock. */
  function Tick(value: int, remote: Option<int>): int {
    (if remote.Some? && value < remote.value then remote.value else value) + INCREMENT_VALUE
  }

  /** The clock after the given events, in order. */
  function TickAll(value: int, events: seq<Option<int>>): int {
    if events == [] then value
    else Tick(TickAll(value, events[..|events| - 1]), events[|events| - 1])
  }

  /** After n events from v the clock is the greatest of v + n and, for every event i
      (counted from 0) that carried a remote clock r, r + n - i. */
  lemma {:induction false} ClockIsMaximum(v: int, events: seq<Option<int>>)
    ensures var n, c := |events|, TickAll(v, events);
            && v + n <= c
            && (forall i :: 0 <= i < n && events[i].Some? ==> events[i].value + n - i <= c)
            && (c == v + n || exists i :: 0 <= i < n && events[i].Some? && c == events[i].value + n - i)
  {
    var n, c := |events|, TickAll(v, events);
    if n > 0 {
      var init, last := events[..n - 1], events[n - 1];
      var c0 := TickAll(v, init);
      ClockIsMaximum(v, init);
      forall i | 0 <= i < n && events[i].Some?
        ensures events[i].value + n - i <= c
      {
        assert i < n - 1 ==> init[i] == events[i];
      }
      if last.Some? && c0 < last.value {
        assert events[n - 1].Some? && c == events[n - 1].value + n - (n - 1);
      } else if c0 != v + (n - 1) {
        var i :| 0 <= i < n - 1 && init[i].Some? && c0 == init[i].value + (n - 1) - i;
        assert events[i].Some? && c == events[i].value + n - i;
      }
    }
  }

  class Clock {
    var value: int

    /** round_clock_new */
    constructor ()
      ensures value == INITIAL_VALUE
    {
      value := INITIAL_VALUE;
    }

    /** round_clock_setremotevalue */
    method SetRemoteValue(remoteValue: int)
      modifies this
      ensures value == Tick(old(value), Some(remoteValue))
    {
      if value < remoteValue {
        value := remoteValue;
      }
      value := value + INCREMENT_VALUE;
    }

    /** round_clock_increment */
    method Increment() returns (lastValue: int)
      modifies this
      ensures value == lastValue == Tick(old(value), None)
    {
      value := value + INCREMENT_VALUE;
      lastValue := value;
    }
  }
}
