// The 64-bit counter read as two 32-bit registers, and a delay that waits on it.
module Counter {
  const WORD: nat := 0x1_0000_0000
  const DWORD: nat := 0x1_0000_0000_0000_0000

  // Two halves with a first reading of low no later than a second one make a
  // value between the counter's first and last.
  lemma Halves(c0: nat, c1: nat, c2: nat, c3: nat)
    requires c0 <= c1 <= c2 <= c3
    ensures c1 / WORD == c2 / WORD && c0 % WORD <= c3 % WORD ==>
              c0 <= c1 / WORD * WORD + c0 % WORD <= c3
    ensures c1 / WORD != c2 / WORD ==> c0 < c2
    ensures c0 % WORD > c3 % WORD ==> c0 < c3
  {
    var (h0, h1, h3) := (c0 / WORD, c1 / WORD, c3 / WORD);
    assert c0 == h0 * WORD + c0 % WORD && c3 == h3 * WORD + c3 % WORD;
    assert h0 <= h1 <= h3;
  }

  // The counter of the cpucfg block, up to the point where it would wrap.
  class Cpucfg {
    // Its value at each register access, and when it has got to a value.
    const at: nat -> nat
    ghost const reaches: nat -> nat
    var clock: nat

    ghost predicate Valid() {
      && (forall i: nat, j: nat :: i <= j ==> at(i) <= at(j))
      && (forall i: nat :: at(i) < DWORD)
      && (forall v: nat :: v < DWORD ==> at(reaches(v)) >= v)
    }

    constructor (at: nat -> nat, ghost reaches: nat -> nat)
      ensures this.at == at && this.reaches == reaches && clock == 0
    {
      this.at, this.reaches, clock := at, reaches, 0;
    }

    // CNT_LOW_REG.
    method Low() returns (v: nat)
      modifies this
      ensures v == at(old(clock)) % WORD && clock == old(clock) + 1
    {
      v := at(clock) % WORD;
      clock := clock + 1;
    }

    // CNT_HIGH_REG.
    method High() returns (v: nat)
      modifies this
      ensures v == at(old(clock)) / WORD && clock == old(clock) + 1
    {
      v := at(clock) / WORD;
      clock := clock + 1;
    }

    // The attempt that begins at access c: its end and its value when the test
    // passes, or the end of a refused one.
    ghost function Attempt(c: nat): (r: (bool, nat, nat))
    {
      var (low, high) := (at(c) % WORD, at(c + 1) / WORD);
      if high != at(c + 2) / WORD then (false, c + 3, 0)
      else if low > at(c + 3) % WORD then (false, c + 4, 0)
      else (true, c + 4, high * WORD + low)
    }

    // A refused attempt means the counter has moved on; the value of a good one
    // lies between the counter's first and last.
    lemma AttemptMeans(c: nat)
      requires Valid()
      ensures var (good, end, v) := Attempt(c);
              && c + 3 <= end
              && (good ==> end == c + 4 && at(c) <= v <= at(end - 1))
              && (!good ==> at(c) < at(end - 1) <= at(end))
    {
      Halves(at(c), at(c + 1), at(c + 2), at(c + 3));
    }

    // A reading that begins at access c: the access after it, and the value.
    ghost function Reading(c: nat): (r: (nat, nat))
      requires Valid()
      decreases DWORD - at(c)
    {
      AttemptMeans(c);
      var (good, end, v) := Attempt(c);
      if good then (end, v) else Reading(end)
    }

    lemma {:induction false} ReadingMeans(c: nat)
      requires Valid()
      ensures var (end, v) := Reading(c);
              c + 4 <= end && at(c) <= at(end - 4) <= v <= at(end - 1) <= at(end)
      decreases DWORD - at(c)
    {
      AttemptMeans(c);
      if !Attempt(c).0 {
        ReadingMeans(Attempt(c).1);
      }
    }

    // The body and the test of cpucfg_counter_read's loop.
    method Sample() returns (good: bool, counter: nat)
      modifies this
      ensures (good, clock) == (Attempt(old(clock)).0, Attempt(old(clock)).1)
      ensures good ==> counter == Attempt(old(clock)).2
    {
      var low := Low();
      var high := High();
      counter := high * WORD + low;
      var high2 := High();
      if high != high2 {
        return false, counter;
      }
      var low2 := Low();
      return low <= low2, counter;
    }

    // cpucfg_counter_read: no torn value, however the counter moves between
    // the accesses.
    method CounterRead() returns (counter: nat)
      requires Valid()
      modifies this
      ensures (clock, counter) == Reading(old(clock))
      ensures old(clock) + 4 <= clock
      ensures at(old(clock)) <= at(clock - 4) <= counter <= at(clock - 1) <= at(clock)
    {
      ReadingMeans(clock);
      var good;
      ghost var first := clock;
      AttemptMeans(first);
      good, counter := Sample();
      while !good
        invariant (good, clock) == (Attempt(first).0, Attempt(first).1) && (good ==> counter == Attempt(first).2)
        invariant Reading(old(clock)) == Reading(first)
        decreases DWORD - at(first), good
      {
        AttemptMeans(first);
        first := clock;
        good, counter := Sample();
      }
    }

    // Readings never go backwards.
    method ReadTwice() returns (first: nat, second: nat)
      requires Valid()
      modifies this
      ensures first <= second
    {
      first := CounterRead();
      second := CounterRead();
    }

    // cnt64_udelay. It waits for 24 ticks a microsecond from its first reading
    // on, exactly when the deadline fits 64 bits; if not, the second reading
    // is its last.
    method Udelay(us: nat)
      requires Valid() && us < WORD
      modifies this
      ensures us == 0 ==> unchanged(this)
      ensures us > 0 ==>
                var (began, first) := (Reading(old(clock)).1, Reading(old(clock)).0);
                && at(old(clock)) <= began
                && (at(clock) >= began + 24 * us <==> began + 24 * us < DWORD)
                && (began + 24 * us >= DWORD ==> clock == Reading(first).0)
    {
      hide Valid, Reading;
      if us == 0 {
        return;
      }
      var now := CounterRead();
      ghost var (began, first) := (now, clock);
      Bounded(clock);
      Deadline(us, now);
      var expire := (us * 24 + now) % DWORD;
      now := CounterRead();
      while expire > now
        invariant began <= now <= at(clock)
        invariant began + 24 * us >= DWORD ==> clock == Reading(first).0
        decreases if clock < reaches(expire) then reaches(expire) - clock else 0, expire > now
      {
        ghost var before := clock;
        now := CounterRead();
        if now < expire {
          NotYet(expire, before, now);
        }
      }
      Bounded(clock);
    }

    // A reading below v was begun before the counter got to v.
    lemma NotYet(v: nat, c: nat, now: nat)
      requires Valid() && v < DWORD && at(c) <= now < v
      ensures c < reaches(v)
    {
    }

    lemma Bounded(c: nat)
      requires Valid()
      ensures at(c) < DWORD
    {
    }
  }

  lemma Deadline(us: nat, now: nat)
    requires us < WORD && now < DWORD
    ensures (us * 24 + now) % DWORD == if us * 24 + now < DWORD then us * 24 + now else us * 24 + now - DWORD
    ensures us * 24 < DWORD
  {
  }

  // A counter ten ticks before its wrap, and a delay of one microsecond that
  // does not wait.
  method DelayCutShort() returns (began: nat, ended: nat)
    ensures ended < began + 24
  {
    var c := new Cpucfg(k => if k < 10 then DWORD - 10 + k else DWORD - 1, v => 10);
    assert c.Valid();
    c.ReadingMeans(0);
    began := c.at(0);
    c.Udelay(1);
    ended := c.at(c.clock);
  }
}
