/** Timed tasks of the base library (src/base/Task.cpp): a task has an
    interval, the time it is next due (`when`) and a callback. The clock
    (TTime::NowMS) is a parameter, in milliseconds.

    The callback is user code that receives this Task itself; the model keeps
    the three kinds that matter to TaskManager: no callback, one that
    leaves the task alone, and one that re-arms it by calling Restart. */
module Tasks {

  datatype Callback = NoCallback | Plain | Rearm

  class Task {
    var interval: int
    var when: int
    const cb: Callback
    /** How many times the callback has run. */
    ghost var runs: nat

    /** Task(cb, interval), for a callback passed by reference or moved in:
        due one interval after the time of construction. */
    constructor (cb: Callback, interval: int, now: int)
      ensures this.interval == interval && when == now + interval
      ensures this.cb == cb && runs == 0
    {
      this.interval := interval;
      this.when := now + interval;
      this.cb := cb;
      this.runs := 0;
    }

    function When(): int
      reads this
    {
      when
    }

    /** Restart: due again one interval after `now`; the interval is kept. */
    method Restart(now: int)
      modifies this
      ensures when == interval + now
      ensures interval == old(interval) && runs == old(runs)
    {
      when := interval + now;
    }

    /** Run: the callback runs only when there is one; Run itself changes no
        field, only a re-arming callback moves `when`. */
    method Run(now: int)
      modifies this
      ensures interval == old(interval)
      ensures runs == old(runs) + (if cb == NoCallback then 0 else 1)
      ensures when == (if cb == Rearm then interval + now else old(when))
    {
      if cb != NoCallback {
        runs := runs + 1;
        if cb == Rearm {
          Restart(now);
        }
      }
    }
  }
}
