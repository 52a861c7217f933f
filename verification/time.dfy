/** The tick counter of utils/time.c: a 32-bit time that a periodic hook
    advances by a settable increment, and an optional precision source
    whose reading is added on demand. */
module Time {
  import opened TypeDef

  /** The counter after `k` calls of TIME_incr starting from `time`. */
  function Ticks(time: u32, incr: u32, k: nat): u32
  {
    if k == 0 then time else Add32(Ticks(time, incr, k - 1), incr)
  }

  /** Every call adds `incr` modulo 2^32, so `k` calls add `k * incr`
      modulo 2^32. */
  lemma {:induction false} TicksClosedForm(time: u32, incr: u32, k: nat)
    ensures Ticks(time, incr, k) == (time + k * incr) % 0x1_0000_0000
  {
    if k > 0 {
      TicksClosedForm(time, incr, k - 1);
      var a := time + (k - 1) * incr;
      assert k * incr == (k - 1) * incr + incr;
      ModAddMod(a, incr);
    }
  }

  /** Adding after a reduction modulo 2^32 is the same as reducing the sum. */
  lemma ModAddMod(a: nat, b: nat)
    ensures (a % 0x1_0000_0000 + b) % 0x1_0000_0000 == (a + b) % 0x1_0000_0000
  {
    var m := 0x1_0000_0000;
    var q := a / m;
    assert a == q * m + a % m;
    assert a + b == q * m + (a % m + b);
    ModMultiple(q, a % m + b);
  }

  lemma ModMultiple(q: nat, c: nat)
    ensures (q * 0x1_0000_0000 + c) % 0x1_0000_0000 == c % 0x1_0000_0000
  {
  }

  /** Running the hook `j` times and then `k` times is running it `j + k` times. */
  lemma {:induction false} TicksCompose(time: u32, incr: u32, j: nat, k: nat)
    ensures Ticks(Ticks(time, incr, j), incr, k) == Ticks(time, incr, j + k)
  {
    if k > 0 {
      TicksCompose(time, incr, j, k - 1);
    }
  }

  /** While no wrap-around happens the counter grows by exactly `k * incr`. */
  lemma TicksNoWrap(time: u32, incr: u32, k: nat)
    requires time + k * incr < 0x1_0000_0000
    ensures Ticks(time, incr, k) == time + k * incr
  {
    TicksClosedForm(time, incr, k);
  }

  /** After 2^32 calls the counter is back where it started, whatever the
      increment. */
  lemma TicksPeriod(time: u32, incr: u32)
    ensures Ticks(time, incr, 0x1_0000_0000) == time
  {
    var m := 0x1_0000_0000;
    TicksClosedForm(time, incr, m);
    assert time + m * incr == incr * m + time;
    ModMultiple(incr, time);
  }

  /** The static `TIME` record. `adjust` is a function pointer in the code;
      the model keeps only whether one was given, and the value it returns
      is an input of GetPrecise. */
  class Clock {
    var time: u32
    var incr: u32
    var hasAdjust: bool

    /** TIME_init (time.c:47-52). */
    constructor (hasAdjust: bool)
      ensures time == 0 && incr == 0 && this.hasAdjust == hasAdjust
    {
      time, incr, this.hasAdjust := 0, 0, hasAdjust;
    }

    /** TIME_init on an existing record (time.c:47-52). */
    method Init(hasAdjust: bool)
      modifies this
      ensures time == 0 && incr == 0 && this.hasAdjust == hasAdjust
    {
      time, incr, this.hasAdjust := 0, 0, hasAdjust;
    }

    /** TIME_set_incr (time.c:56-59): only the increment changes. */
    method SetIncr(v: u32)
      modifies this
      ensures incr == v
      ensures time == old(time) && hasAdjust == old(hasAdjust)
    {
      incr := v;
    }

    /** TIME_get_incr (time.c:63-66). */
    method GetIncr() returns (r: u32)
      ensures r == incr
    {
      r := incr;
    }

    /** TIME_incr (time.c:72-75): one more tick, modulo 2^32. */
    method Incr()
      modifies this
      ensures time == Ticks(old(time), incr, 1)
      ensures incr == old(incr) && hasAdjust == old(hasAdjust)
    {
      time := Add32(time, incr);
    }

    /** TIME_get (time.c:79-82). */
    method Get() returns (r: u32)
      ensures r == time
    {
      r := time;
    }

    /** TIME_get_precise (time.c:86-97): the time plus the adjustment, when
        an adjustment source was given, modulo 2^32; the stored time is not
        changed (the method modifies nothing). */
    method GetPrecise(adjustReading: u32) returns (r: u32)
      ensures hasAdjust ==> r == (time + adjustReading) % 0x1_0000_0000
      ensures !hasAdjust ==> r == time
    {
      r := time;
      if hasAdjust {
        r := Add32(r, adjustReading);
      }
    }
  }
}
