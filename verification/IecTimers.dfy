/**
 The timer function blocks TON, TOF and TP: one body per scan on a handful of fields. Over whole
 scan sequences each output is shown to be what the history of the input says it should be.
 */
module IecTimers {
  import opened IecTime

  /** The fields the bodies read and write, besides ENO. */
  datatype State = State(q: bool, et: Time, state: int, prevIn: bool, startTime: Time)

  const INITIAL := State(false, ZERO, 0, false, ZERO)

  predicate Expired(s: State, pt: Time, now: Time) {
    AtMost(Add(s.startTime, pt), now)
  }

  // ---------- one scan, as the bodies compute it ----------

  function TonScan(s: State, input: bool, pt: Time, now: Time): State {
    (if s.state == 0 && !s.prevIn && input then s.(state := 1, q := false, startTime := now)
     else if !input then s.(et := ZERO, q := false, state := 0)
     else if s.state == 1 then
       if Expired(s, pt, now) then s.(state := 2, q := true, et := pt) else s.(et := Sub(now, s.startTime))
     else s).(prevIn := input)
  }

  function TofScan(s: State, input: bool, pt: Time, now: Time): State {
    var s' :=
      if s.state == 0 && s.prevIn && !input then s.(state := 1, startTime := now)
      else if input then s.(et := ZERO, state := 0)
      else if s.state == 1 then
        if Expired(s, pt, now) then s.(state := 2, et := pt) else s.(et := Sub(now, s.startTime))
      else s;
    s'.(q := input || s'.state == 1, prevIn := input)
  }

  function TpScan(s: State, input: bool, pt: Time, now: Time): State {
    var s' :=
      if s.state == 0 && !s.prevIn && input then s.(state := 1, q := true, startTime := now)
      else if s.state == 1 then
        if Expired(s, pt, now) then s.(state := 2, q := false, et := pt) else s.(et := Sub(now, s.startTime))
      else s;
    (if s'.state == 2 && !input then s'.(et := ZERO, state := 0) else s').(prevIn := input)
  }

  /** The structs TON, TOF and TP, which have the same fields and the same initial values. */
  class Timer {
    var EN: bool
    var ENO: bool
    var IN: bool
    var PT: Time
    var Q: bool
    var ET: Time
    var STATE: int
    var PREV_IN: bool
    var CURRENT_TIME: Time
    var START_TIME: Time

    constructor ()
      ensures EN && ENO && !IN && PT == ZERO && Current() == INITIAL
    {
      EN, ENO, IN, PT := true, true, false, ZERO;
      Q, ET, STATE, PREV_IN := false, ZERO, 0, false;
      CURRENT_TIME, START_TIME := ZERO, ZERO;
    }

    function Current(): State
      reads this
    {
      State(Q, ET, STATE, PREV_IN, START_TIME)
    }

    method TonBody(now: Time)
      modifies this
      ensures ENO == EN == old(EN) && IN == old(IN) && PT == old(PT)
      ensures Current() == if EN then TonScan(old(Current()), IN, PT, now) else old(Current())
    {
      if !EN {
        ENO := false;
        return;
      }
      ENO := true;
      CURRENT_TIME := now;
      if STATE == 0 && !PREV_IN && IN {
        STATE := 1;
        Q := false;
        START_TIME := CURRENT_TIME;
      } else if !IN {
        ET := ZERO;
        Q := false;
        STATE := 0;
      } else if STATE == 1 {
        if AtMost(Add(START_TIME, PT), CURRENT_TIME) {
          STATE := 2;
          Q := true;
          ET := PT;
        } else {
          ET := Sub(CURRENT_TIME, START_TIME);
        }
      }
      PREV_IN := IN;
    }

    method TofBody(now: Time)
      modifies this
      ensures ENO == EN == old(EN) && IN == old(IN) && PT == old(PT)
      ensures Current() == if EN then TofScan(old(Current()), IN, PT, now) else old(Current())
    {
      if !EN {
        ENO := false;
        return;
      }
      ENO := true;
      CURRENT_TIME := now;
      if STATE == 0 && PREV_IN && !IN {
        STATE := 1;
        START_TIME := CURRENT_TIME;
      } else if IN {
        ET := ZERO;
        STATE := 0;
      } else if STATE == 1 {
        if AtMost(Add(START_TIME, PT), CURRENT_TIME) {
          STATE := 2;
          ET := PT;
        } else {
          ET := Sub(CURRENT_TIME, START_TIME);
        }
      }
      Q := IN || STATE == 1;
      PREV_IN := IN;
    }

    method TpBody(now: Time)
      modifies this
      ensures ENO == EN == old(EN) && IN == old(IN) && PT == old(PT)
      ensures Current() == if EN then TpScan(old(Current()), IN, PT, now) else old(Current())
    {
      if !EN {
        ENO := false;
        return;
      }
      ENO := true;
      CURRENT_TIME := now;
      if STATE == 0 && !PREV_IN && IN {
        STATE := 1;
        Q := true;
        START_TIME := CURRENT_TIME;
      } else if STATE == 1 {
        if AtMost(Add(START_TIME, PT), CURRENT_TIME) {
          STATE := 2;
          Q := false;
          ET := PT;
        } else {
          ET := Sub(CURRENT_TIME, START_TIME);
        }
      }
      if STATE == 2 && !IN {
        ET := ZERO;
        STATE := 0;
      }
      PREV_IN := IN;
    }
  }

  // ---------- scan sequences ----------

  /** One enabled scan: the input and the clock it sees. */
  datatype Scan = Scan(input: bool, now: Time)

  datatype Block = TON | TOF | TP

  function Step(block: Block, s: State, pt: Time, scan: Scan): State {
    match block
    case TON => TonScan(s, scan.input, pt, scan.now)
    case TOF => TofScan(s, scan.input, pt, scan.now)
    case TP => TpScan(s, scan.input, pt, scan.now)
  }

  /** The state after the first `n` scans. */
  function After(block: Block, pt: Time, h: seq<Scan>, n: nat): State
    requires n <= |h|
  {
    if n == 0 then INITIAL else Step(block, After(block, pt, h, n - 1), pt, h[n - 1])
  }

  /** A clock of normalised values that never goes back, and a normalised preset time from zero on. */
  predicate Timely(pt: Time, h: seq<Scan>) {
    && pt.Normal() && pt.Nanos() >= 0
    && (forall i :: 0 <= i < |h| ==> h[i].now.Normal())
    && (forall i, j :: 0 <= i <= j < |h| ==> h[i].now.Nanos() <= h[j].now.Nanos())
  }

  /** The preset time has passed between two scans. */
  predicate Passed(pt: Time, h: seq<Scan>, from: nat, to: nat)
    requires from < |h| && to < |h|
  {
    h[from].now.Nanos() + pt.Nanos() <= h[to].now.Nanos()
  }

  /** The scan at which the input took the value it has had up to scan `k`. */
  function Since(h: seq<Scan>, k: nat): (e: nat)
    requires k < |h|
    ensures e <= k && forall j :: e <= j <= k ==> h[j].input == h[k].input
    ensures e > 0 ==> h[e - 1].input != h[k].input
  {
    if k == 0 || h[k - 1].input != h[k].input then k else Since(h, k - 1)
  }

  lemma {:induction false} SinceIsUnique(h: seq<Scan>, e: nat, k: nat)
    requires e <= k < |h| && forall j :: e <= j <= k ==> h[j].input == h[k].input
    requires e > 0 ==> h[e - 1].input != h[k].input
    ensures e == Since(h, k)
    decreases k
  {
    if e < k { SinceIsUnique(h, e, k - 1); }
  }

  function Elapsed(h: seq<Scan>, e: nat, k: nat): int
    requires e < |h| && k < |h|
  {
    h[k].now.Nanos() - h[e].now.Nanos()
  }

  function Min(a: int, b: int): int {
    if a <= b then a else b
  }

  // ---------- TON ----------

  /** TON after scan `k`, told from the history of its input alone. */
  predicate TonTells(pt: Time, h: seq<Scan>, k: nat, s: State)
    requires k < |h|
  {
    var e := Since(h, k);
    && s.prevIn == h[k].input
    && (if !h[k].input then s.state == 0 && !s.q && s.et == ZERO
        else if k == e then s.state == 1 && !s.q && s.et == ZERO && s.startTime == h[e].now
        else if Passed(pt, h, e, k) then s.state == 2 && s.q && s.et == pt
        else s.state == 1 && !s.q && s.et.Nanos() == Elapsed(h, e, k) && s.startTime == h[e].now)
  }

  lemma {:induction false} TonFollowsInput(pt: Time, h: seq<Scan>, k: nat)
    requires Timely(pt, h) && k < |h|
    ensures TonTells(pt, h, k, After(TON, pt, h, k + 1))
  {
    if k > 0 {
      TonFollowsInput(pt, h, k - 1);
      TonStep(pt, h, k, After(TON, pt, h, k));
    }
  }

  lemma TonStep(pt: Time, h: seq<Scan>, k: nat, s: State)
    requires Timely(pt, h) && 0 < k < |h| && TonTells(pt, h, k - 1, s)
    ensures TonTells(pt, h, k, TonScan(s, h[k].input, pt, h[k].now))
  {
    var e := Since(h, k - 1);
    DeadlineIsExact(h[e].now, pt, h[k].now);
    SubIsExact(h[k].now, h[e].now);
    assert h[k - 1].now.Nanos() <= h[k].now.Nanos();
    assert if h[k - 1].input == h[k].input then Since(h, k) == e else Since(h, k) == k;
    hide Timely, Since, Time.Nanos, Sub, Add, AtMost, Time.Normal;
  }

  /**
   Q holds exactly when the input has been true since a rising edge at an earlier scan and the
   preset time has passed; ET counts up to the preset time and never beyond.
   */
  lemma TonIsOnDelay(pt: Time, h: seq<Scan>, k: nat)
    requires Timely(pt, h) && k < |h|
    ensures var s := After(TON, pt, h, k + 1);
            && (s.q <==> exists e :: 0 <= e < k && Rises(h, e) && StaysOn(h, e, k) && Passed(pt, h, e, k))
            && s.et.Nanos() == (if h[k].input then Min(Elapsed(h, Since(h, k), k), pt.Nanos()) else 0)
            && 0 <= s.et.Nanos() <= pt.Nanos()
  {
    TonFollowsInput(pt, h, k);
    var e := Since(h, k);
    if h[k].input {
      assert Rises(h, e) && StaysOn(h, e, k);
      forall e' | 0 <= e' < k && Rises(h, e') && StaysOn(h, e', k) ensures e' == e {
        SinceIsUnique(h, e', k);
      }
    }
  }

  predicate Rises(h: seq<Scan>, e: nat)
    requires e < |h|
  {
    h[e].input && (e == 0 || !h[e - 1].input)
  }

  predicate Falls(h: seq<Scan>, e: nat)
    requires e < |h|
  {
    !h[e].input && e > 0 && h[e - 1].input
  }

  predicate StaysOn(h: seq<Scan>, e: nat, k: nat)
    requires k < |h|
  {
    forall j :: e <= j <= k ==> h[j].input
  }

  predicate StaysOff(h: seq<Scan>, e: nat, k: nat)
    requires k < |h|
  {
    forall j :: e <= j <= k ==> !h[j].input
  }

  // ---------- TOF ----------

  predicate TofTells(pt: Time, h: seq<Scan>, k: nat, s: State)
    requires k < |h|
  {
    var e := Since(h, k);
    && s.prevIn == h[k].input
    && (if h[k].input then s.state == 0 && s.q && s.et == ZERO
        else if e == 0 then s.state == 0 && !s.q && s.et == ZERO
        else if k == e then s.state == 1 && s.q && s.et == ZERO && s.startTime == h[e].now
        else if Passed(pt, h, e, k) then s.state == 2 && !s.q && s.et == pt
        else s.state == 1 && s.q && s.et.Nanos() == Elapsed(h, e, k) && s.startTime == h[e].now)
  }

  lemma {:induction false} TofFollowsInput(pt: Time, h: seq<Scan>, k: nat)
    requires Timely(pt, h) && k < |h|
    ensures TofTells(pt, h, k, After(TOF, pt, h, k + 1))
  {
    if k > 0 {
      TofFollowsInput(pt, h, k - 1);
      var e := Since(h, k - 1);
      DeadlineIsExact(h[e].now, pt, h[k].now);
      SubIsExact(h[k].now, h[e].now);
    }
  }

  /**
   Q holds while the input does, and after a falling edge until the first later scan at which the
   preset time has passed; ET counts from that edge up to the preset time.
   */
  lemma TofIsOffDelay(pt: Time, h: seq<Scan>, k: nat)
    requires Timely(pt, h) && k < |h|
    ensures var s := After(TOF, pt, h, k + 1);
            && (s.q <==> h[k].input || exists e :: 0 < e <= k && Falls(h, e) && StaysOff(h, e, k)
                                        && forall j :: e < j <= k ==> !Passed(pt, h, e, j))
            && 0 <= s.et.Nanos() <= pt.Nanos()
            && (!h[k].input && Since(h, k) > 0 ==> s.et.Nanos() == Min(Elapsed(h, Since(h, k), k), pt.Nanos()))
  {
    TofFollowsInput(pt, h, k);
    var e := Since(h, k);
    if !h[k].input {
      if e > 0 { assert Falls(h, e) && StaysOff(h, e, k); }
      forall e' | 0 < e' <= k && Falls(h, e') && StaysOff(h, e', k) ensures e' == e {
        SinceIsUnique(h, e', k);
      }
    }
  }

  // ---------- TP ----------

  /** Between a pulse that started at `s` and scan `k` the input was seen off at or after the pulse's end. */
  ghost predicate Rearmed(pt: Time, h: seq<Scan>, s: nat, k: nat)
    requires s < |h| && k <= |h|
  {
    exists r :: s < r < k && Passed(pt, h, s, r) && !h[r].input
  }

  /** A pulse starts at a rising edge for which every earlier pulse has been rearmed. */
  ghost predicate Triggers(pt: Time, h: seq<Scan>, s: nat)
    requires s < |h|
    decreases s
  {
    Rises(h, s) && forall s' :: 0 <= s' < s && Triggers(pt, h, s') ==> Rearmed(pt, h, s', s)
  }

  /** `s` is the last pulse start up to scan `k`. */
  ghost predicate LastTrigger(pt: Time, h: seq<Scan>, s: nat, k: nat)
    requires k < |h|
  {
    s <= k && Triggers(pt, h, s) && forall i :: s < i <= k ==> !Triggers(pt, h, i)
  }

  ghost predicate TpTells(pt: Time, h: seq<Scan>, k: nat, s: int, st: State)
    requires k < |h|
  {
    && st.prevIn == h[k].input
    && (if s < 0 then st.state == 0 && !st.q && st.et == ZERO && forall i :: 0 <= i <= k ==> !Triggers(pt, h, i)
        else
          && LastTrigger(pt, h, s, k)
          && (if Rearmed(pt, h, s, k + 1) then st.state == 0 && !st.q && st.et == ZERO
              else if k > s && Passed(pt, h, s, k) then st.state == 2 && !st.q && st.et == pt
              else st.state == 1 && st.q && st.startTime == h[s].now
                   && st.et.Nanos() == Elapsed(h, s, k)))
  }

  /** A rising edge starts a pulse exactly when the last pulse, if any, has been rearmed. */
  lemma NextTrigger(pt: Time, h: seq<Scan>, s: int, k: nat)
    requires 0 < k < |h|
    requires if s < 0 then forall i :: 0 <= i < k ==> !Triggers(pt, h, i) else LastTrigger(pt, h, s, k - 1)
    ensures Triggers(pt, h, k) <==> Rises(h, k) && (s >= 0 ==> Rearmed(pt, h, s, k))
  {
    if s >= 0 && Rearmed(pt, h, s, k) {
      forall s' | 0 <= s' < k && Triggers(pt, h, s') ensures Rearmed(pt, h, s', k) {
        if s' < s { RearmedLater(pt, h, s', s, k); }
      }
    }
  }

  lemma RearmedLater(pt: Time, h: seq<Scan>, s: nat, k: nat, later: nat)
    requires s < |h| && k <= later <= |h| && Rearmed(pt, h, s, k)
    ensures Rearmed(pt, h, s, later)
  {
  }

  lemma RearmedAt(pt: Time, h: seq<Scan>, s: nat, k: nat)
    requires s < |h| && k < |h|
    ensures Rearmed(pt, h, s, k + 1) <==> Rearmed(pt, h, s, k) || (s < k && Passed(pt, h, s, k) && !h[k].input)
  {
  }

  lemma {:induction false} TpFollowsInput(pt: Time, h: seq<Scan>, k: nat) returns (s: int)
    requires Timely(pt, h) && k < |h|
    ensures s <= k && TpTells(pt, h, k, s, After(TP, pt, h, k + 1))
  {
    hide Triggers, Rearmed, TpScan;
    if k == 0 {
      s := TpAtFirst(pt, h);
    } else {
      s := TpFollowsInput(pt, h, k - 1);
      var st := After(TP, pt, h, k);
      NextTrigger(pt, h, s, k);
      if s < 0 || Rearmed(pt, h, s, k) {
        s := TpWhenIdle(pt, h, k, s, st);
      } else {
        TpWhenBusy(pt, h, k, s, st);
      }
    }
  }

  lemma TpAtFirst(pt: Time, h: seq<Scan>) returns (s: int)
    requires Timely(pt, h) && 0 < |h|
    ensures s <= 0 && TpTells(pt, h, 0, s, TpScan(INITIAL, h[0].input, pt, h[0].now))
  {
    hide Triggers, Rearmed;
    FirstTrigger(pt, h);
    RearmedAt(pt, h, 0, 0);
    NotRearmedYet(pt, h, 0);
    s := if h[0].input then 0 else -1;
  }

  lemma TpWhenIdle(pt: Time, h: seq<Scan>, k: nat, s: int, st: State) returns (s': int)
    requires Timely(pt, h) && 0 < k < |h| && s < k && TpTells(pt, h, k - 1, s, st)
    requires s < 0 || Rearmed(pt, h, s, k)
    requires Triggers(pt, h, k) <==> Rises(h, k)
    ensures s' <= k && TpTells(pt, h, k, s', TpScan(st, h[k].input, pt, h[k].now))
  {
    hide Triggers, Rearmed;
    if Rises(h, k) {
      RearmedAt(pt, h, k, k);
      NotRearmedYet(pt, h, k);
      s' := k;
    } else {
      if s >= 0 { RearmedAt(pt, h, s, k); }
      s' := s;
    }
  }

  lemma TpWhenBusy(pt: Time, h: seq<Scan>, k: nat, s: int, st: State)
    requires Timely(pt, h) && 0 < k < |h| && 0 <= s < k && TpTells(pt, h, k - 1, s, st)
    requires !Rearmed(pt, h, s, k) && !Triggers(pt, h, k)
    ensures TpTells(pt, h, k, s, TpScan(st, h[k].input, pt, h[k].now))
  {
    hide Triggers, Rearmed;
    RearmedAt(pt, h, s, k);
    DeadlineIsExact(h[s].now, pt, h[k].now);
    SubIsExact(h[k].now, h[s].now);
  }

  lemma FirstTrigger(pt: Time, h: seq<Scan>)
    requires |h| > 0
    ensures Triggers(pt, h, 0) <==> h[0].input
  {
  }

  lemma NotRearmedYet(pt: Time, h: seq<Scan>, k: nat)
    requires k < |h|
    ensures !Rearmed(pt, h, k, k)
  {
  }

  /** A pulse that started at scan `p` is still on at scan `k`. */
  ghost predicate PulseOn(pt: Time, h: seq<Scan>, p: nat, k: nat)
    requires p <= k < |h|
  {
    Triggers(pt, h, p) && forall j :: p < j <= k ==> !Passed(pt, h, p, j)
  }

  /** Only the last pulse can be on, and it is so until its time has passed. */
  lemma OnlyLastPulse(pt: Time, h: seq<Scan>, p: nat, s: nat, k: nat)
    requires Timely(pt, h) && k < |h| && LastTrigger(pt, h, s, k) && p <= k
    ensures PulseOn(pt, h, p, k) <==> p == s && (s < k ==> !Passed(pt, h, s, k))
  {
    if p < s && Triggers(pt, h, p) {
      assert Rearmed(pt, h, p, s);
    }
  }

  lemma RearmedHasPassed(pt: Time, h: seq<Scan>, s: nat, k: nat)
    requires Timely(pt, h) && s < |h| && k < |h| && Rearmed(pt, h, s, k + 1)
    ensures s < k && Passed(pt, h, s, k)
  {
  }

  /**
   The pulse: Q holds exactly from a trigger until the first later scan at which the preset time has
   passed, whatever the input does meanwhile; ET counts from the last trigger up to the preset time
   and is zero again once the input was seen off at or after the end of the pulse.
   */
  lemma TpIsPulse(pt: Time, h: seq<Scan>, k: nat)
    requires Timely(pt, h) && k < |h|
    ensures var s := After(TP, pt, h, k + 1);
            && (s.q <==> exists p :: 0 <= p <= k && PulseOn(pt, h, p, k))
            && 0 <= s.et.Nanos() <= pt.Nanos()
            && (forall p :: 0 <= p <= k && LastTrigger(pt, h, p, k) ==>
                  s.et.Nanos() == if Rearmed(pt, h, p, k + 1) then 0 else Min(Elapsed(h, p, k), pt.Nanos()))
            && ((forall p :: 0 <= p <= k ==> !Triggers(pt, h, p)) ==> s.et == ZERO)
  {
    hide PulseOn, Rearmed;
    var s := TpFollowsInput(pt, h, k);
    forall p | 0 <= p <= k ensures PulseOn(pt, h, p, k) <==> p == s && (s < k ==> !Passed(pt, h, s, k)) {
      if s >= 0 { OnlyLastPulse(pt, h, p, s, k); } else { NoPulse(pt, h, p, k); }
    }
    if s >= 0 && Rearmed(pt, h, s, k + 1) { RearmedHasPassed(pt, h, s, k); }
    if s >= 0 { assert PulseOn(pt, h, s, k) <==> (s < k ==> !Passed(pt, h, s, k)); }
  }

  lemma NoPulse(pt: Time, h: seq<Scan>, p: nat, k: nat)
    requires p <= k < |h| && !Triggers(pt, h, p)
    ensures !PulseOn(pt, h, p, k)
  {
  }
}
