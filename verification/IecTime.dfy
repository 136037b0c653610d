/**
 The time values of the IEC 61131-3 runtime: a second count and a nanosecond count, added and
 subtracted fieldwise and then normalised, compared fieldwise without a sum ever being formed.
 */
module IecTime {

  const SECOND := 1_000_000_000

  datatype Time = Time(sec: int, nsec: int) {
    /** The instant or duration meant. */
    function Nanos(): int {
      sec * SECOND + nsec
    }

    /** Less than a second of nanoseconds, and both fields of one sign. */
    predicate Normal() {
      -SECOND < nsec < SECOND && SignsAgree()
    }

    predicate SignsAgree() {
      (sec > 0 ==> nsec >= 0) && (sec < 0 ==> nsec <= 0)
    }
  }

  const ZERO := Time(0, 0)

  /** The first correction of __normalize_timespec. */
  function Borrow(t: Time): Time {
    if t.nsec < -SECOND || (t.sec > 0 && t.nsec < 0) then Time(t.sec - 1, t.nsec + SECOND) else t
  }

  /** The second one, which sees what the first one left. */
  function Carry(t: Time): Time {
    if t.nsec > SECOND || (t.sec < 0 && t.nsec > 0) then Time(t.sec + 1, t.nsec - SECOND) else t
  }

  /** An IEC_TIMESPEC in memory. */
  class Timespec {
    var sec: int
    var nsec: int

    constructor (t: Time)
      ensures Value() == t
    {
      sec, nsec := t.sec, t.nsec;
    }

    function Value(): Time
      reads this
    {
      Time(sec, nsec)
    }

    /** __normalize_timespec */
    method Normalize()
      modifies this
      ensures Value() == Carry(Borrow(old(Value())))
      ensures Value().Nanos() == old(Value()).Nanos()
    {
      if nsec < -SECOND || (sec > 0 && nsec < 0) {
        sec := sec - 1;
        nsec := nsec + SECOND;
      }
      if nsec > SECOND || (sec < 0 && nsec > 0) {
        sec := sec + 1;
        nsec := nsec - SECOND;
      }
    }
  }

  function Add(a: Time, b: Time): Time {
    Carry(Borrow(Time(a.sec + b.sec, a.nsec + b.nsec)))
  }

  function Sub(a: Time, b: Time): Time {
    Carry(Borrow(Time(a.sec - b.sec, a.nsec - b.nsec)))
  }

  /** __time_cmp */
  function Cmp(a: Time, b: Time): int {
    if b.sec == a.sec then a.nsec - b.nsec else a.sec - b.sec
  }

  /** LE_TIME of two arguments. */
  predicate AtMost(a: Time, b: Time) {
    Cmp(a, b) <= 0
  }

  /** Sums are exact, but a whole second of nanoseconds can be left uncarried. */
  lemma AddIsExact(a: Time, b: Time)
    requires a.Normal() && b.Normal()
    ensures Add(a, b).Nanos() == a.Nanos() + b.Nanos()
    ensures Add(a, b).SignsAgree() && -SECOND <= Add(a, b).nsec <= SECOND
  {
  }

  /** The one case in which the sum is left uncarried; every other sum is in normal form. */
  lemma UncarriedIff(a: Time, b: Time)
    requires a.Normal() && b.Normal()
    ensures var n, t := a.nsec + b.nsec, Add(a, b);
      && (!t.Normal() <==> (n == 1_000_000_000 && a.sec + b.sec >= 0) || (n == -1_000_000_000 && a.sec + b.sec <= 0))
      && t.sec * 1_000_000_000 + t.nsec == (a.sec + b.sec) * 1_000_000_000 + n
  {
    AddIsExact(a, b);
  }

  lemma SubIsExact(a: Time, b: Time)
    requires a.Normal() && b.Normal()
    ensures Sub(a, b).Nanos() == a.Nanos() - b.Nanos()
    ensures Sub(a, b).SignsAgree() && -SECOND <= Sub(a, b).nsec <= SECOND
  {
  }

  lemma CmpIsExact(a: Time, b: Time)
    requires a.Normal() && b.Normal()
    ensures (Cmp(a, b) < 0 <==> a.Nanos() < b.Nanos()) && (Cmp(a, b) == 0 <==> a == b) && (a == b <==> a.Nanos() == b.Nanos())
  {
  }

  /**
   Comparing an unnormalised sum is still right, except when nanoseconds that add up to minus one
   second are left uncarried and the sum is compared with the very instant it stands for.
   */
  lemma SumAtMostIff(a: Time, b: Time, c: Time)
    requires a.Normal() && b.Normal() && c.Normal()
    ensures (AtMost(Add(a, b), c) <==> a.Nanos() + b.Nanos() <= c.Nanos())
      <==> !(a.nsec + b.nsec == -SECOND && a.sec + b.sec <= 0 && c.Nanos() == a.Nanos() + b.Nanos())
  {
    AddIsExact(a, b);
  }

  /** Two half seconds before zero are not found to be at most one second before zero. */
  lemma NegativeSumMiscompared()
    ensures var half := Time(0, -500_000_000);
            Add(half, half).Nanos() == Time(-1, 0).Nanos() && !AtMost(Add(half, half), Time(-1, 0))
  {
  }

  /** With a preset time from zero on the exception cannot occur: a deadline is met exactly on any clock. */
  lemma DeadlineIsExact(start: Time, pt: Time, now: Time)
    requires start.Normal() && pt.Normal() && now.Normal() && pt.Nanos() >= 0
    ensures AtMost(Add(start, pt), now) <==> start.Nanos() + pt.Nanos() <= now.Nanos()
  {
    AddIsExact(start, pt);
    SumAtMostIff(start, pt, now);
  }
}
