/** Reading a running 64-bit counter through 32-bit registers, and reprogramming a live timer
    (sw/device/lib/dif/dif_rv_timer.c, sw/device/lib/dif/dif_aon_timer.c). */
module LiveCounters {
  import opened Words

  function Upper(n: u64): (h: u32) { n / TWO_32 }

  function LowerHalf(n: u64): (l: u32) { n % TWO_32 }

  function Join(upper: u32, lower: u32): (n: u64) {
    var u: int := upper;
    u * TWO_32 + lower
  }

  /** The counter value seen by the i-th register access of a call: any number of ticks may pass
      between two accesses, as long as the 64-bit counter does not wrap. */
  type Counter = nat -> u64

  ghost predicate Monotone(v: Counter) {
    forall i: nat, j: nat :: i <= j ==> v(i) <= v(j)
  }

  /** `dif_rv_timer_counter_read`: whatever ticks pass, the result is the value the counter held at
      the last read of the lower half, and one retry suffices unless 2^32 counts pass. */
  method RvTimerCounterRead(v: Counter) returns (out: u64, ghost accesses: nat)
    requires Monotone(v)
    ensures accesses >= 3 && out == v(accesses - 2)
    ensures Upper(v(0)) == Upper(v(2)) ==> out == v(1)
    ensures v(5) - v(0) < TWO_32 ==> out == v(1) || out == v(4)
    ensures v(accesses - 1) - v(0) < TWO_32 ==> accesses <= 6
  {
    accesses := 0;
    hide Upper, LowerHalf, Join;
    var i := 0;
    while true
      invariant accesses == i && i % 3 == 0
      invariant i >= 3 ==> Upper(v(i)) >= Upper(v(2)) > Upper(v(0))
      invariant i >= 6 ==> Upper(v(i)) >= Upper(v(5)) > Upper(v(0)) + 1
      decreases TWO_32 - Upper(v(i))
    {
      var upper := Upper(v(i));
      var lower := LowerHalf(v(i + 1));
      var overflowCheck := Upper(v(i + 2));
      assert v(0) <= v(i) <= v(i + 1) <= v(i + 2) <= v(i + 3);
      UpperGap(v(0), v(i));
      UpperGap(v(0), v(i + 2));
      UpperGap(v(0), v(5));
      UpperGap(v(i), v(i + 2));
      UpperGap(v(i + 2), v(i + 3));
      accesses := i + 3;
      if upper == overflowCheck {
        Assembled(v(i), v(i + 1), v(i + 2));
        return Join(upper, lower), accesses;
      }
      i := i + 3;
    }
  }

  lemma {:induction false} UpperGap(a: u64, b: u64)
    ensures (Upper(b) > Upper(a) + 1 ==> b - a > TWO_32) && (a <= b ==> Upper(a) <= Upper(b))
  {
  }

  /** The lower half read while the upper half did not move. */
  lemma {:induction false} Assembled(a: u64, b: u64, c: u64)
    requires a <= b <= c && Upper(a) == Upper(c)
    ensures Join(Upper(a), LowerHalf(b)) == b
  {
  }

  /** `dif_aon_timer_wakeup_get_count`: four reads at most and no retry. The result is the value at the
      lower-half read, or, when the upper half moved twice, a value the counter passed in between. */
  method AonWakeupGetCount(v: Counter) returns (count: u64)
    requires Monotone(v)
    ensures v(0) <= count <= v(3)
    ensures Upper(v(0)) == Upper(v(2)) ==> count == v(1)
    ensures Upper(v(0)) != Upper(v(2)) ==> (count == v(3) <==> Upper(v(2)) == Upper(v(3)))
    ensures v(3) - v(0) < TWO_32 ==> count == v(1) || count == v(3)
  {
    var countHi := Upper(v(0));
    var countLo := LowerHalf(v(1));
    var countHi2 := Upper(v(2));
    assert v(0) <= v(1) <= v(2) <= v(3);
    if countHi2 != countHi {
      countLo := LowerHalf(v(3));
      countHi := countHi2;
    }
    count := Join(countHi, countLo);
  }

  /** The case the two re-reads do not cover: if the upper half moves again before the lower half is
      re-read, the count returned is one the counter held at none of the four reads. */
  lemma {:induction false} AonCountBetweenReads() returns (v: Counter)
    ensures Monotone(v) && Upper(v(0)) != Upper(v(2)) && Upper(v(2)) != Upper(v(3))
    ensures Join(Upper(v(2)), LowerHalf(v(3))) !in {v(0), v(1), v(2), v(3)}
  {
    v := (i: nat) => if i < 2 then 0 else if i == 2 then 0x1_0000_0000 else 0x2_0000_0007;
  }
}

module RvTimer {
  import opened Words
  import opened LiveCounters

  /** The alarms from some point on all show a counter that had reached the compare value. */
  ghost predicate Due(alarms: seq<u64>, from: nat, compare: u64) {
    from <= |alarms| && forall i :: from <= i < |alarms| ==> alarms[i] >= compare
  }

  lemma {:induction false} NoneDue(alarms: seq<u64>, compare: u64)
    ensures Due(alarms, |alarms|, compare)
  {
  }

  lemma {:induction false} OneMoreDue(alarms: seq<u64>, from: nat, compare: u64, mtime: u64)
    requires Due(alarms, from, compare) && mtime >= compare
    ensures Due(alarms + [mtime], from, compare) && alarms <= alarms + [mtime]
  {
  }

  /** One hart of the timer: control bit, counter and comparator. */
  class Timer {
    var active: bool
    var mtime: u64
    var compareLower: u32
    var compareUpper: u32
    /** How often the counter will still tick. */
    var ticks: nat
    /** The counter values at which the alarm was seen raised. */
    ghost var alarms: seq<u64>

    constructor (active: bool, mtime: u64, compareUpper: u32, compareLower: u32, ticks: nat)
      ensures this.active == active && this.mtime == mtime && alarms == [] && this.ticks == ticks
      ensures this.compareUpper == compareUpper && this.compareLower == compareLower
    {
      this.active, this.mtime, this.ticks := active, mtime, ticks;
      this.compareUpper, this.compareLower := compareUpper, compareLower;
      alarms := [];
    }

    function Compare(): (c: u64)
      reads this
    {
      Join(compareUpper, compareLower)
    }

    /** The alarm is a level. */
    predicate Raised()
      reads this
    {
      active && mtime >= Compare()
    }

    /** The hardware between two register accesses: an active counter may tick, wrapping at 64 bits; every value
        it holds is compared. */
    method Hardware()
      modifies this`mtime, this`alarms, this`ticks
      ensures (!active || old(ticks) == 0 ==> mtime == old(mtime)) && ticks <= old(ticks)
      ensures old(alarms) <= alarms && Due(alarms, old(|alarms|), Compare()) && (!active ==> alarms == old(alarms))
      ensures old(Raised()) ==> |alarms| > old(|alarms|)
    {
      ghost var was, due := alarms, Compare();
      hide Join, Due;
      NoneDue(was, due);
      var more: bool := *;
      while active && ticks > 0 && more
        invariant (!active || old(ticks) == 0 ==> mtime == old(mtime)) && ticks <= old(ticks)
        invariant old(alarms) <= alarms && Due(alarms, |was|, due) && (!active ==> alarms == was)
        invariant old(Raised()) ==> |alarms| > old(|alarms|) || Raised()
        invariant Compare() == due
      {
        if Raised() {
          OneMoreDue(alarms, |was|, due, mtime);
          alarms := alarms + [mtime];
        }
        var step: byte := *;
        mtime, ticks := (mtime + step) % TWO_64, ticks - 1;
        more := *;
      }
      if Raised() {
        OneMoreDue(alarms, |was|, due, mtime);
        alarms := alarms + [mtime];
      }
    }

    /** `dif_rv_timer_arm`: every alarm raised while the comparator is rewritten is one the old compare value or
        the new threshold calls for; among them `early` before the last write, which are also due by the old compare
        value or by one with its upper half at the maximum. The first write never sets off the alarm; the second
        does exactly when the counter, then at `at`, has reached that maximum with the new lower half and not yet
        with the old one. */
    method Arm(threshold: u64) returns (ghost early: nat, ghost at: u64, ghost first: bool, ghost second: bool)
      modifies this
      ensures active == old(active) && Compare() == threshold
      ensures old(alarms) <= alarms && old(|alarms|) + early <= |alarms|
      ensures forall i :: old(|alarms|) <= i < |alarms| ==> alarms[i] >= old(Compare()) || alarms[i] >= threshold
      ensures forall i :: old(|alarms|) <= i < old(|alarms|) + early ==>
        alarms[i] >= old(Compare()) || alarms[i] >= Join(0xffff_ffff, LowerHalf(threshold)) >= 0xffff_ffff_0000_0000
      ensures !first
      ensures second <==> active && Join(0xffff_ffff, LowerHalf(threshold)) <= at < Join(0xffff_ffff, old(compareLower))
      ensures second ==> early > 0
      ensures old(ticks) == 0 ==> at == old(mtime)
    {
      var lower, upper := LowerHalf(threshold), Upper(threshold);
      HighestUpper(compareUpper, compareLower);
      HighestUpper(upper, lower);
      Hardware();
      first := !Raised();
      compareUpper := 0xffff_ffff;
      first := first && Raised();
      Hardware();
      at, second := mtime, !Raised();
      compareLower := lower;
      second := second && Raised();
      Hardware();
      early := |alarms| - old(|alarms|);
      compareUpper := upper;
      Hardware();
    }

    /** `dif_rv_timer_counter_write`: the two halves are written with the counter stopped, so it restarts
        from exactly the value given. */
    method CounterWrite(count: u64)
      modifies this
      ensures mtime == count && active == old(active) && Compare() == old(Compare())
    {
      Hardware();
      var ctrl := active;
      Hardware();
      active := false;
      Hardware();
      mtime := Join(Upper(mtime), LowerHalf(count));
      Hardware();
      mtime := Join(Upper(count), LowerHalf(mtime));
      Hardware();
      active := ctrl;
    }
  }

  /** The second write setting off the alarm, which its comment in the source excludes: the counter stands still
      within 2^32 of its maximum and below the compare value. */
  method SecondWriteSetsOff() returns (timer: Timer, ghost early: nat, ghost second: bool)
    ensures timer.alarms != [] && second && early > 0
  {
    timer := new Timer(true, 0xffff_ffff_0000_0003, 0xffff_ffff, 5, 0);
    ghost var at, first;
    early, at, first, second := timer.Arm(0);
  }

  /** Raising the upper half to its maximum never lowers the compare value. */
  lemma {:induction false} HighestUpper(upper: u32, lower: u32)
    ensures Join(upper, lower) <= Join(0xffff_ffff, lower)
  {
  }
}
