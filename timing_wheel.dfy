/** The four-level hierarchical timing wheel of the network library
    (src/network/net/TimingWheel.cpp): 60 one-second buckets, 60 one-minute
    buckets, 24 one-hour buckets and 30 one-day buckets.

    An entry is either a plain timer, known by an identifier, or the wrapper a
    coarser level puts in its bucket, which re-inserts the timer with the
    remaining delay when its bucket is released. A timer "fires" when the
    wheel lets go of it; the identifiers that have fired are kept in the ghost
    set `fired`. */
module TimingWheel {
  import opened BytesReader

  /** Seconds per minute, hour and day (kTimingMinute, kTimingHour, kTimingDay). */
  const Minute: nat := 60
  const Hour: nat := 60 * 60
  const Day: nat := 60 * 60 * 24

  /** The number of buckets per level: seconds, minutes, hours, days. */
  const Sizes: seq<nat> := [60, 60, 24, 30]

  /** What a bucket holds: a timer, or a wrapper that re-inserts the timer
      `id` with `delay` seconds still to go. */
  datatype Entry = Timer(id: nat) | Reinsert(delay: uint32, id: nat)

  type Wheels = seq<seq<set<Entry>>>

  /** Four levels with 60, 60, 24 and 30 buckets. */
  predicate Shaped(w: Wheels)
  {
    |w| == 4 && forall l :: 0 <= l < 4 ==> |w[l]| == Sizes[l]
  }

  /** InsertEntry lets go of the entry at once instead of placing it: a delay
      of 0, or more than 30 days (`day > 30`). */
  predicate Fires(delay: uint32)
  {
    delay == 0 || delay / Day > 30
  }

  /** The level a placed delay goes to: the first whose unit is not too big. */
  function Level(delay: uint32): (l: nat)
    ensures l < 4
  {
    if delay < Minute then 0 else if delay < Hour then 1 else if delay < Day then 2 else 3
  }

  /** Seconds per bucket of each level. */
  function Unit(l: nat): (u: nat)
    requires l < 4
    ensures u >= 1
  {
    [1, Minute, Hour, Day][l]
  }

  /** The bucket InsertSecondEntry/InsertMinuteEntry/InsertHourEntry/
      InsertDayEntry index: the number of whole units, less one. */
  function Bucket(delay: uint32): (b: nat)
    requires !Fires(delay)
    ensures b < Sizes[Level(delay)]
  {
    delay / Unit(Level(delay)) - 1
  }

  /** The seconds-level index InsertEntry reaches as written for a delay
      below a minute: a delay of 0 is not returned from after the entry is
      reset, so InsertSecondEntry computes `delay - 1` in 32 bits. */
  function SecondIndexAsWritten(delay: uint32): (i: uint32)
    requires delay < Minute
    ensures i < Sizes[0] <==> delay != 0
    ensures delay != 0 ==> i == Bucket(delay)
    ensures delay == 0 ==> i == 0xFFFF_FFFF
  {
    (delay + 0xFFFF_FFFF) % 0x1_0000_0000
  }

  /** What is put in the bucket: the timer itself at the seconds level, or a
      wrapper carrying the remainder `delay % unit` at a coarser level. */
  function Placed(delay: uint32, id: nat): (e: Entry)
    requires !Fires(delay)
    ensures e.id == id
    ensures Level(delay) == 0 <==> e.Timer?
    ensures e.Reinsert? ==> e.delay < Unit(Level(delay))
  {
    if Level(delay) == 0 then Timer(id) else Reinsert(delay % Unit(Level(delay)), id)
  }

  /** The delay an entry in bucket `b` of level `l` stands for. */
  function DelayOf(l: nat, b: nat, e: Entry): nat
    requires l < 4
  {
    (b + 1) * Unit(l) + (if e.Reinsert? then e.delay else 0)
  }

  /** No time is lost by the placement: the bucket's position plus the
      remainder the wrapper carries add up to the requested delay, and the
      remainder always goes to a finer level. */
  lemma PlacementKeepsDelay(delay: uint32, id: nat)
    requires !Fires(delay)
    ensures DelayOf(Level(delay), Bucket(delay), Placed(delay, id)) == delay
    ensures var e := Placed(delay, id); e.Reinsert? ==> e.delay < Minute || Level(e.delay) < Level(delay)
  {
    var u := Unit(Level(delay));
    assert delay == (delay / u) * u + delay % u;
  }

  /** The wheels after InsertEntry(delay, id). */
  function Insert(w: Wheels, delay: uint32, id: nat): (r: Wheels)
    requires Shaped(w)
    ensures Shaped(r)
  {
    if Fires(delay) then w
    else
      var l, b := Level(delay), Bucket(delay);
      w[l := w[l][b := w[l][b] + {Placed(delay, id)}]]
  }

  /** One bucket gains one entry, and no other bucket changes. */
  predicate OnlyAdds(w: Wheels, r: Wheels, l: nat, b: nat, e: Entry)
    requires Shaped(w) && Shaped(r)
  {
    && l < 4 && b < Sizes[l]
    && r[l][b] == w[l][b] + {e}
    && forall l', b' :: 0 <= l' < 4 && 0 <= b' < Sizes[l'] && (l', b') != (l, b) ==> r[l'][b'] == w[l'][b']
  }

  /** Delays of 1 to 59 seconds: the timer goes to second-bucket delay-1. */
  lemma InsertSeconds(w: Wheels, delay: uint32, id: nat)
    requires Shaped(w) && 1 <= delay < Minute
    ensures OnlyAdds(w, Insert(w, delay, id), 0, delay - 1, Timer(id))
  {
  }

  /** Delays of 60 to 3599 seconds: a wrapper goes to minute-bucket delay/60-1
      and re-inserts the timer with delay%60. */
  lemma InsertMinutes(w: Wheels, delay: uint32, id: nat)
    requires Shaped(w) && Minute <= delay < Hour
    ensures OnlyAdds(w, Insert(w, delay, id), 1, delay / Minute - 1, Reinsert(delay % Minute, id))
  {
  }

  /** Delays of one hour up to one day: a wrapper goes to hour-bucket
      delay/3600-1 and re-inserts the timer with delay%3600. */
  lemma InsertHours(w: Wheels, delay: uint32, id: nat)
    requires Shaped(w) && Hour <= delay < Day
    ensures OnlyAdds(w, Insert(w, delay, id), 2, delay / Hour - 1, Reinsert(delay % Hour, id))
  {
  }

  /** Delays of one to 30 days: a wrapper goes to day-bucket delay/86400-1
      and re-inserts the timer with delay%86400; beyond 30 days nothing is
      placed. */
  lemma InsertDays(w: Wheels, delay: uint32, id: nat)
    requires Shaped(w) && Day <= delay
    ensures delay / Day <= 30 ==>
      OnlyAdds(w, Insert(w, delay, id), 3, delay / Day - 1, Reinsert(delay % Day, id))
    ensures delay / Day > 30 ==> Insert(w, delay, id) == w
  {
  }

  /** Level `l` after PopUp, before its front bucket is released: the other
      buckets move one place to the front and an empty one joins the back. */
  function Shift(w: Wheels, l: nat): (r: Wheels)
    requires Shaped(w) && l < 4
    ensures Shaped(r)
    ensures forall b :: 0 <= b < Sizes[l] - 1 ==> r[l][b] == w[l][b + 1]
    ensures r[l][Sizes[l] - 1] == {}
    ensures forall l' :: 0 <= l' < 4 && l' != l ==> r[l'] == w[l']
  {
    w[l := w[l][1..] + [{}]]
  }

  /** The (delay, timer) pairs of the wrappers in a bucket. */
  function Reinserts(bucket: set<Entry>): set<(uint32, nat)>
  {
    set e | e in bucket && e.Reinsert? :: (e.delay, e.id)
  }

  /** The timers of a bucket. */
  function TimerIds(bucket: set<Entry>): set<nat>
  {
    set e | e in bucket && e.Timer? :: e.id
  }

  /** The timers among `items` that InsertEntry lets go of at once. */
  function FiredIds(items: set<(uint32, nat)>): set<nat>
  {
    set x | x in items && Fires(x.0) :: x.1
  }

  /** The entries that the pairs of `items` place in bucket `b` of level `l`. */
  function Extra(items: set<(uint32, nat)>, l: nat, b: nat): set<Entry>
  {
    set x | x in items && !Fires(x.0) && Level(x.0) == l && Bucket(x.0) == b :: Placed(x.0, x.1)
  }

  /** The wheels after every pair of `items` has been inserted, in any order:
      each bucket gains the entries placed in it. */
  function InsertAll(w: Wheels, items: set<(uint32, nat)>): (r: Wheels)
    requires Shaped(w)
    ensures Shaped(r)
    ensures forall l, b :: 0 <= l < 4 && 0 <= b < Sizes[l] ==> r[l][b] == w[l][b] + Extra(items, l, b)
  {
    seq(4, l requires 0 <= l < 4 => seq(Sizes[l], b requires 0 <= b < Sizes[l] => w[l][b] + Extra(items, l, b)))
  }

  /** Two wheels of the same shape are equal when every bucket is. */
  lemma {:induction false} SameBuckets(a: Wheels, c: Wheels)
    requires Shaped(a) && Shaped(c)
    requires forall l, b :: 0 <= l < 4 && 0 <= b < Sizes[l] ==> a[l][b] == c[l][b]
    ensures a == c
  {
    forall l | 0 <= l < 4
      ensures a[l] == c[l]
    {
      assert |a[l]| == |c[l]| == Sizes[l];
      forall b | 0 <= b < |a[l]|
        ensures a[l][b] == c[l][b]
      {
      }
    }
  }

  /** Inserting one more pair into InsertAll is InsertAll of the larger set. */
  lemma {:induction false} InsertAllStep(w: Wheels, items: set<(uint32, nat)>, x: (uint32, nat))
    requires Shaped(w)
    ensures InsertAll(w, items + {x}) == Insert(InsertAll(w, items), x.0, x.1)
  {
    var a := InsertAll(w, items + {x});
    var m := InsertAll(w, items);
    var c := Insert(m, x.0, x.1);
    forall l, b | 0 <= l < 4 && 0 <= b < Sizes[l]
      ensures a[l][b] == c[l][b]
    {
      if !Fires(x.0) && Level(x.0) == l && Bucket(x.0) == b {
        assert Extra(items + {x}, l, b) == Extra(items, l, b) + {Placed(x.0, x.1)};
        assert c[l][b] == m[l][b] + {Placed(x.0, x.1)};
      } else {
        assert Extra(items + {x}, l, b) == Extra(items, l, b);
        assert c[l][b] == m[l][b];
      }
    }
    SameBuckets(a, c);
  }

  lemma {:induction false} InsertAllEmpty(w: Wheels)
    requires Shaped(w)
    ensures InsertAll(w, {}) == w
  {
    var a := InsertAll(w, {});
    forall l, b | 0 <= l < 4 && 0 <= b < Sizes[l]
      ensures a[l][b] == w[l][b]
    {
      assert Extra({}, l, b) == {};
    }
    SameBuckets(a, w);
  }

  /** The timers that fire when the entries of `bucket` are let go: its own
      timers, and those its wrappers re-insert with a delay of 0. */
  function Released(bucket: set<Entry>): set<nat>
  {
    TimerIds(bucket) + FiredIds(Reinserts(bucket))
  }

  lemma Regroup(a: set<nat>, b: set<nat>, x: set<nat>)
    ensures (a + b) + x == a + (b + x)
  {
  }

  /** Letting go of one more entry of a released bucket. */
  lemma ReleaseOne(done: set<Entry>, e: Entry)
    ensures e.Reinsert? ==> Reinserts(done + {e}) == Reinserts(done) + {(e.delay, e.id)}
    ensures e.Timer? ==> Reinserts(done + {e}) == Reinserts(done)
    ensures Released(done + {e}) == Released(done) + (if e.Timer? || Fires(e.delay) then {e.id} else {})
  {
    if e.Timer? {
      assert Reinserts(done + {e}) == Reinserts(done);
      assert TimerIds(done + {e}) == TimerIds(done) + {e.id};
    } else {
      assert Reinserts(done + {e}) == Reinserts(done) + {(e.delay, e.id)};
      assert TimerIds(done + {e}) == TimerIds(done);
    }
  }

  /** The wheels after PopUp of level `l`. */
  function Popped(w: Wheels, l: nat): (r: Wheels)
    requires Shaped(w) && l < 4
    ensures Shaped(r)
  {
    InsertAll(Shift(w, l), Reinserts(w[l][0]))
  }

  /** The timers that fire when PopUp releases the front bucket of level `l`. */
  function PoppedFires(w: Wheels, l: nat): set<nat>
    requires Shaped(w) && l < 4
  {
    Released(w[l][0])
  }

  /** A wrapper re-inserts the timer into a finer level than its own, so the
      buckets of the popped level are only shifted. */
  lemma {:induction false} PopUpKeepsOwnLevelShifted(w: Wheels, l: nat)
    requires Shaped(w) && 0 < l < 4
    requires forall e :: e in w[l][0] && e.Reinsert? ==> e.delay < Unit(l)
    ensures Popped(w, l)[l] == Shift(w, l)[l]
  {
    var s := Shift(w, l);
    var r := Popped(w, l);
    forall b | 0 <= b < Sizes[l]
      ensures r[l][b] == s[l][b]
    {
      forall x | x in Reinserts(w[l][0]) && !Fires(x.0)
        ensures Level(x.0) != l
      {
      }
    }
  }

  /** The hour and day branches of OnTimer are unreachable: a tick that is a
      multiple of 3600 or of 86400 is a multiple of 60, which the first
      branch already takes. */
  lemma {:induction false} CoarseTicksAreMinuteTicks(tick: nat)
    ensures tick % Hour == 0 ==> tick % Minute == 0
    ensures tick % Day == 0 ==> tick % Minute == 0
  {
    if tick % Hour == 0 {
      MultipleOfMinute(tick / Hour * 60, tick);
    }
    if tick % Day == 0 {
      MultipleOfMinute(tick / Day * 1440, tick);
    }
  }

  lemma MultipleOfMinute(k: nat, t: nat)
    requires t == k * Minute
    ensures t % Minute == 0
  {
  }

  /** Four levels of empty buckets. */
  const EmptyWheels: Wheels := [seq(60, _ => {}), seq(60, _ => {}), seq(24, _ => {}), seq(30, _ => {})]

  /** What tick number `tick` is meant to do to the levels from `l` on: each
      level pops, in order, when the tick is a multiple of its unit, so the
      seconds level every tick, the minutes level every 60th, the hours level
      every 3600th and the days level every 86400th. The result is the wheels
      and the timers let go. */
  function TickFrom(w: Wheels, tick: nat, l: nat): (r: (Wheels, set<nat>))
    requires Shaped(w) && l <= 4
    ensures Shaped(r.0)
    decreases 4 - l
  {
    if l == 4 then (w, {})
    else if tick % Unit(l) == 0 then
      var rest := TickFrom(Popped(w, l), tick, l + 1);
      (rest.0, PoppedFires(w, l) + rest.1)
    else TickFrom(w, tick, l + 1)
  }

  /** As written, a timer set one hour ahead is never let go: it waits in
      the first hour bucket, and at tick 3600 only the seconds and minutes
      levels pop, releasing nothing, where popping the hours level too
      releases it. */
  lemma HourTimerStaysAsWritten()
    ensures Shaped(EmptyWheels)
    ensures var w := Insert(EmptyWheels, 3600, 7);
      && PoppedFires(w, 0) + PoppedFires(Popped(w, 0), 1) == {}
      && 7 in TickFrom(w, 3600, 0).1
  {
    var w := Insert(EmptyWheels, 3600, 7);
    assert w[0] == EmptyWheels[0] && w[1] == EmptyWheels[1];
    assert w[2][0] == {Reinsert(0, 7)};
    assert Reinserts({}) == {} && Released({}) == {};
    var w1 := Popped(w, 0);
    InsertAllEmpty(Shift(w, 0));
    assert w1 == Shift(w, 0);
    assert w1[1][0] == {} && w1[2][0] == {Reinsert(0, 7)};
    var w2 := Popped(w1, 1);
    InsertAllEmpty(Shift(w1, 1));
    assert w2 == Shift(w1, 1);
    assert w2[2][0] == {Reinsert(0, 7)};
    assert (0, 7) in Reinserts(w2[2][0]);
    assert 7 in PoppedFires(w2, 2);
    assert Unit(0) == 1 && Unit(1) == 60 && Unit(2) == 3600;
    TickFromLevel(w, 3600, 0);
    TickFromLevel(w1, 3600, 1);
    TickFromLevel(w2, 3600, 2);
  }

  /** Part way through tick number `tick`: the levels from `l` on have yet
      to pop, and popping them takes wheels `w`, with the timers `f` let go
      so far, to `target`. */
  ghost predicate Pending(w: Wheels, f: set<nat>, tick: nat, l: nat, target: (Wheels, set<nat>))
    requires Shaped(w) && l <= 4
  {
    TickFrom(w, tick, l).0 == target.0 && f + TickFrom(w, tick, l).1 == target.1
  }

  lemma TickStarts(w: Wheels, f: set<nat>, tick: nat)
    requires Shaped(w)
    ensures Pending(w, f, tick, 0, (TickFrom(w, tick, 0).0, f + TickFrom(w, tick, 0).1))
  {
  }

  lemma TickGoesOn(w: Wheels, f: set<nat>, tick: nat, l: nat, target: (Wheels, set<nat>), w': Wheels, f': set<nat>)
    requires Shaped(w) && l < 4 && Pending(w, f, tick, l, target)
    requires w' == if tick % Unit(l) == 0 then Popped(w, l) else w
    requires f' == f + if tick % Unit(l) == 0 then PoppedFires(w, l) else {}
    ensures Shaped(w') && Pending(w', f', tick, l + 1, target)
  {
    TickFromLevel(w, tick, l);
    if tick % Unit(l) == 0 {
      var rest := TickFrom(w', tick, l + 1);
      assert f + (PoppedFires(w, l) + rest.1) == f' + rest.1;
    } else {
      assert f + {} == f;
    }
  }

  lemma TickEnds(w: Wheels, f: set<nat>, tick: nat, target: (Wheels, set<nat>))
    requires Shaped(w) && Pending(w, f, tick, 4, target)
    ensures w == target.0 && f == target.1
  {
    assert f + {} == f;
  }

  /** One level of a tick: it pops when the tick is a multiple of its unit. */
  lemma TickFromLevel(w: Wheels, tick: nat, l: nat)
    requires Shaped(w) && l < 4
    ensures tick % Unit(l) == 0 ==>
      var rest := TickFrom(Popped(w, l), tick, l + 1);
      TickFrom(w, tick, l) == (rest.0, PoppedFires(w, l) + rest.1)
    ensures tick % Unit(l) != 0 ==> TickFrom(w, tick, l) == TickFrom(w, tick, l + 1)
  {
  }

  /** The wheel; `lastTs` and `tick` are last_ts_ and tick_. */
  class Wheel {
    var wheels: Wheels
    var lastTs: int
    var tick: nat
    ghost var fired: set<nat>

    predicate Valid()
      reads this
    {
      Shaped(wheels) && tick < 0x1_0000_0000_0000_0000
    }

    /** A new wheel: four levels of 60, 60, 24 and 30 empty buckets. */
    constructor ()
      ensures Valid()
      ensures forall l, b :: 0 <= l < 4 && 0 <= b < Sizes[l] ==> wheels[l][b] == {}
      ensures lastTs == 0 && tick == 0 && fired == {}
    {
      wheels := [seq(60, _ => {}), seq(60, _ => {}), seq(24, _ => {}), seq(30, _ => {})];
      lastTs := 0;
      tick := 0;
      fired := {};
    }

    /** InsertEntry with a delay of 0 lets the timer go at once. */
    method InsertEntry(delay: uint32, id: nat)
      requires Valid()
      modifies this
      ensures Valid()
      ensures wheels == Insert(old(wheels), delay, id)
      ensures fired == old(fired) + (if Fires(delay) then {id} else {})
      ensures lastTs == old(lastTs) && tick == old(tick)
    {
      if delay == 0 {
        fired := fired + {id};
        return;
      }
      if delay < Minute {
        InsertSecondEntry(delay, id);
      } else if delay < Hour {
        InsertMinuteEntry(delay, id);
      } else if delay < Day {
        InsertHourEntry(delay, id);
      } else {
        var day := delay / Day;
        if day > 30 {
          // Not support delay more than 30 days: the entry is dropped, and
          // dropping the last reference runs its callback.
          fired := fired + {id};
          return;
        }
        InsertDayEntry(delay, id);
      }
    }

    method InsertSecondEntry(delay: uint32, id: nat)
      requires Valid() && 1 <= delay < Minute
      modifies this
      ensures Valid()
      ensures wheels == Insert(old(wheels), delay, id)
      ensures fired == old(fired) && lastTs == old(lastTs) && tick == old(tick)
    {
      wheels := wheels[0 := wheels[0][delay - 1 := wheels[0][delay - 1] + {Timer(id)}]];
    }

    method InsertMinuteEntry(delay: uint32, id: nat)
      requires Valid() && Minute <= delay < Hour
      modifies this
      ensures Valid()
      ensures wheels == Insert(old(wheels), delay, id)
      ensures fired == old(fired) && lastTs == old(lastTs) && tick == old(tick)
    {
      var minute := delay / Minute;
      var second := delay % Minute;
      wheels := wheels[1 := wheels[1][minute - 1 := wheels[1][minute - 1] + {Reinsert(second, id)}]];
    }

    method InsertHourEntry(delay: uint32, id: nat)
      requires Valid() && Hour <= delay < Day
      modifies this
      ensures Valid()
      ensures wheels == Insert(old(wheels), delay, id)
      ensures fired == old(fired) && lastTs == old(lastTs) && tick == old(tick)
    {
      var hour := delay / Hour;
      var second := delay % Hour;
      wheels := wheels[2 := wheels[2][hour - 1 := wheels[2][hour - 1] + {Reinsert(second, id)}]];
    }

    method InsertDayEntry(delay: uint32, id: nat)
      requires Valid() && Day <= delay && delay / Day <= 30
      modifies this
      ensures Valid()
      ensures wheels == Insert(old(wheels), delay, id)
      ensures fired == old(fired) && lastTs == old(lastTs) && tick == old(tick)
    {
      var day := delay / Day;
      var second := delay % Day;
      wheels := wheels[3 := wheels[3][day - 1 := wheels[3][day - 1] + {Reinsert(second, id)}]];
    }

    /** PopUp: the front bucket of level `l` leaves the wheel, an empty one
        joins the back, and every entry of the released bucket is let go:
        a timer fires, a wrapper re-inserts its timer. */
    method PopUp(l: nat)
      requires Valid() && l < 4
      modifies this
      ensures Valid()
      ensures wheels == Popped(old(wheels), l)
      ensures fired == old(fired) + PoppedFires(old(wheels), l)
      ensures lastTs == old(lastTs) && tick == old(tick)
    {
      var front := wheels[l][0];
      ghost var shifted := Shift(wheels, l);
      wheels := wheels[l := wheels[l][1..] + [{}]];
      InsertAllEmpty(shifted);
      var rest := front;
      ghost var done: set<Entry> := {};
      assert Reinserts({}) == {} && Released({}) == {};
      while rest != {}
        invariant done + rest == front
        invariant Valid()
        invariant wheels == InsertAll(shifted, Reinserts(done))
        invariant fired == old(fired) + Released(done)
        invariant lastTs == old(lastTs) && tick == old(tick)
        decreases rest
      {
        var e :| e in rest;
        Release(e, shifted, done, old(fired));
        done := done + {e};
        rest := rest - {e};
      }
    }

    /** One entry of a popped bucket: a timer is let go, a reinsertion goes
        back in with its remaining delay. */
    method Release(e: Entry, ghost shifted: Wheels, ghost done: set<Entry>, ghost before: set<nat>)
      requires Valid() && Shaped(shifted)
      requires wheels == InsertAll(shifted, Reinserts(done)) && fired == before + Released(done)
      modifies this
      ensures Valid()
      ensures wheels == InsertAll(shifted, Reinserts(done + {e})) && fired == before + Released(done + {e})
      ensures lastTs == old(lastTs) && tick == old(tick)
    {
      ReleaseOne(done, e);
      Regroup(before, Released(done), if e.Timer? || Fires(e.delay) then {e.id} else {});
      if e.Timer? {
        fired := fired + {e.id};
      } else {
        InsertAllStep(shifted, Reinserts(done), (e.delay, e.id));
        InsertEntry(e.delay, e.id);
      }
    }

    /** OnTimer(now), `now` in milliseconds: the first call records the time;
        once a second has passed since the last tick, the tick count grows by
        one, the seconds level pops, and every 60th tick the minutes level
        pops too. The hour and day levels never pop. */
    method OnTimer(now: int)
      requires Valid()
      modifies this
      ensures Valid()
      ensures var last := if old(lastTs) == 0 then now else old(lastTs);
        now - last < 1000 ==> lastTs == last && tick == old(tick) && wheels == old(wheels) && fired == old(fired)
      ensures var last := if old(lastTs) == 0 then now else old(lastTs);
        now - last >= 1000 ==> lastTs == now && tick == (old(tick) + 1) % 0x1_0000_0000_0000_0000
      ensures var last := if old(lastTs) == 0 then now else old(lastTs);
        now - last >= 1000 && tick % Minute != 0 ==>
          wheels == Popped(old(wheels), 0) && fired == old(fired) + PoppedFires(old(wheels), 0)
      ensures var last := if old(lastTs) == 0 then now else old(lastTs);
        now - last >= 1000 && tick % Minute == 0 ==>
          && wheels == Popped(Popped(old(wheels), 0), 1)
          && fired == old(fired) + PoppedFires(old(wheels), 0) + PoppedFires(Popped(old(wheels), 0), 1)
    {
      if lastTs == 0 {
        lastTs := now;
      }
      if now - lastTs < 1000 {
        return;
      }
      lastTs := now;
      tick := (tick + 1) % 0x1_0000_0000_0000_0000;
      PopUp(0);
      var minuteTick := tick % Minute == 0;
      var hourTick := tick % Hour == 0;
      var dayTick := tick % Day == 0;
      CoarseTicksAreMinuteTicks(tick);
      if minuteTick {
        PopUp(1);
      } else if hourTick {
        assert false;
      } else if dayTick {
        assert false;
      }
    }

    /** OnTimer with the three coarser levels in separate `if` statements
        rather than one `else if` chain, so that each level pops once per its
        unit of ticks. */
    method OnTimerIntended(now: int)
      requires Valid()
      modifies this
      ensures Valid()
      ensures var last := if old(lastTs) == 0 then now else old(lastTs);
        now - last < 1000 ==> lastTs == last && tick == old(tick) && wheels == old(wheels) && fired == old(fired)
      ensures var last := if old(lastTs) == 0 then now else old(lastTs);
        now - last >= 1000 ==>
          && lastTs == now && tick == (old(tick) + 1) % 0x1_0000_0000_0000_0000
          && wheels == TickFrom(old(wheels), tick, 0).0
          && fired == old(fired) + TickFrom(old(wheels), tick, 0).1
    {
      if lastTs == 0 {
        lastTs := now;
      }
      if now - lastTs < 1000 {
        return;
      }
      lastTs := now;
      tick := (tick + 1) % 0x1_0000_0000_0000_0000;
      PopLevels();
    }

    /** The pops of tick number `tick`: the seconds level, then each coarser
        level whose unit divides the tick. */
    method PopLevels()
      requires Valid()
      modifies this
      ensures Valid()
      ensures wheels == TickFrom(old(wheels), tick, 0).0
      ensures fired == old(fired) + TickFrom(old(wheels), tick, 0).1
      ensures lastTs == old(lastTs) && tick == old(tick)
    {
      ghost var target := (TickFrom(wheels, tick, 0).0, fired + TickFrom(wheels, tick, 0).1);
      TickStarts(wheels, fired, tick);
      PopIfDue(0, target);
      PopIfDue(1, target);
      PopIfDue(2, target);
      PopIfDue(3, target);
      TickEnds(wheels, fired, tick, target);
    }

    /** Level `l`'s part of the tick: it pops when its unit divides the tick. */
    method PopIfDue(l: nat, ghost target: (Wheels, set<nat>))
      requires Valid() && l < 4 && Pending(wheels, fired, tick, l, target)
      modifies this
      ensures Valid() && Pending(wheels, fired, tick, l + 1, target)
      ensures wheels == if tick % Unit(l) == 0 then Popped(old(wheels), l) else old(wheels)
      ensures fired == old(fired) + if tick % Unit(l) == 0 then PoppedFires(old(wheels), l) else {}
      ensures lastTs == old(lastTs) && tick == old(tick)
    {
      ghost var w, f := wheels, fired;
      if tick % Unit(l) == 0 {
        PopUp(l);
      } else {
        assert fired + {} == fired;
      }
      TickGoesOn(w, f, tick, l, target, wheels, fired);
    }
  }
}
