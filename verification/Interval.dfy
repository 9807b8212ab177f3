/** utility.c's interval checkers, over one hold variable and a whole run of clock readings. */
module Interval {
  import opened CTypes

  /** The values of a 32-bit `long` that are not negative. */
  type time = x: int | 0 <= x < 0x8000_0000

  const TWO_TO_THE_64 := 0x1_0000_0000_0000_0000

  /** chck_time_int compares as signed `long`, chck_time_int_ms as unsigned 64-bit. */
  datatype Form = Seconds | Milliseconds

  predicate Fires(form: Form, hold: int, now: int, tInt: int) {
    match form
    case Seconds => Signed32(now - hold) > tInt
    case Milliseconds => (now - hold) % TWO_TO_THE_64 > tInt % TWO_TO_THE_64
  }

  /** The hold is a `long`: a firing stores the reading cut to 32 bits. */
  function NextHold(form: Form, hold: int, now: int, tInt: int): int {
    if Fires(form, hold, now, tInt) then Signed32(now) else hold
  }

  class Hold {
    var t: int

    constructor (t: time)
      ensures this.t == t
    {
      this.t := t;
    }
  }

  method ChckTimeInt(hold: Hold, now: time, tInt: int) returns (ret: int)
    modifies hold
    ensures ret == if Fires(Seconds, old(hold.t), now, tInt) then 1 else 0
    ensures hold.t == NextHold(Seconds, old(hold.t), now, tInt)
  {
    ret := if Signed32(now - hold.t) > tInt then 1 else 0;
    hold.t := if ret == 1 then now else hold.t;
  }

  method ChckTimeIntMs(hold: Hold, now: nat, tInt: int) returns (ret: int)
    modifies hold
    ensures ret == if Fires(Milliseconds, old(hold.t), now, tInt) then 1 else 0
    ensures hold.t == NextHold(Milliseconds, old(hold.t), now, tInt)
  {
    ret := if (now - hold.t) % TWO_TO_THE_64 > tInt % TWO_TO_THE_64 then 1 else 0;
    hold.t := if ret == 1 then Signed32(now) else hold.t;
  }

  // ---------- runs ----------

  function HoldAfter(form: Form, hold: int, tInt: int, clock: seq<int>): int {
    if clock == [] then hold
    else NextHold(form, HoldAfter(form, hold, tInt, clock[..|clock| - 1]), clock[|clock| - 1], tInt)
  }

  predicate FiredAt(form: Form, hold: int, tInt: int, clock: seq<int>, k: nat)
    requires k < |clock|
  {
    Fires(form, HoldAfter(form, hold, tInt, clock[..k]), clock[k], tInt)
  }

  /** A clock that does not step back, with readings below a bound. */
  predicate Ascending(clock: seq<int>, bound: int) {
    && (forall k :: 0 <= k < |clock| ==> 0 <= clock[k] < bound)
    && (forall j, k :: 0 <= j < k < |clock| ==> clock[j] <= clock[k])
  }

  /** Readings that fit a `long`. */
  predicate Steady(clock: seq<int>) {
    Ascending(clock, 0x8000_0000)
  }

  /** A steady clock whose first reading is not before the hold. */
  predicate SteadyFrom(hold: time, clock: seq<int>) {
    Steady(clock) && (clock != [] ==> hold <= clock[0])
  }

  /** The index of the last firing, or -1. */
  function LastFired(form: Form, hold: int, tInt: int, clock: seq<int>): (r: int)
    ensures -1 <= r < |clock|
  {
    if clock == [] then -1
    else
      var n := |clock| - 1;
      if FiredAt(form, hold, tInt, clock, n) then n else LastFired(form, hold, tInt, clock[..n])
  }

  lemma {:induction false} LastFiredIsLast(form: Form, hold: int, tInt: int, clock: seq<int>)
    ensures var r := LastFired(form, hold, tInt, clock);
            && (r >= 0 ==> FiredAt(form, hold, tInt, clock, r))
            && forall k :: r < k < |clock| ==> !FiredAt(form, hold, tInt, clock, k)
  {
    if clock != [] {
      var n := |clock| - 1;
      var before, r := clock[..n], LastFired(form, hold, tInt, clock);
      LastFiredIsLast(form, hold, tInt, before);
      if r < n {
        forall k | r <= k < n && k >= 0
          ensures FiredAt(form, hold, tInt, before, k) == FiredAt(form, hold, tInt, clock, k)
        {
          assert before[..k] == clock[..k];
        }
      }
    }
  }

  /** Whatever the clock does, the hold is the reading of the last firing, cut to a `long`, or its first value. */
  lemma {:induction false} HoldIsLastFiring(form: Form, hold: int, tInt: int, clock: seq<int>)
    ensures var r := LastFired(form, hold, tInt, clock);
            HoldAfter(form, hold, tInt, clock) == if r >= 0 then Signed32(clock[r]) else hold
  {
    if clock != [] {
      HoldIsLastFiring(form, hold, tInt, clock[..|clock| - 1]);
    }
  }

  lemma {:induction false} HoldStaysPast(hold: time, tInt: time, clock: seq<int>, i: nat, k: nat)
    requires Steady(clock) && i < k <= |clock| && FiredAt(Seconds, hold, tInt, clock, i)
    ensures clock[i] <= HoldAfter(Seconds, hold, tInt, clock[..k]) <= clock[k - 1]
    decreases k
  {
    assert clock[..k][..k - 1] == clock[..k - 1];
    if i < k - 1 {
      HoldStaysPast(hold, tInt, clock, i, k - 1);
    }
  }

  /** Any two firings of the seconds form are more than the interval apart. */
  lemma FiringsSpaced(hold: time, tInt: time, clock: seq<int>, i: nat, k: nat)
    requires Steady(clock) && i < k < |clock|
    requires FiredAt(Seconds, hold, tInt, clock, i) && FiredAt(Seconds, hold, tInt, clock, k)
    ensures clock[k] - clock[i] > tInt
  {
    HoldStaysPast(hold, tInt, clock, i, k);
  }

  function Firings(hold: int, tInt: int, clock: seq<int>): nat {
    if clock == [] then 0
    else
      var n := |clock| - 1;
      Firings(hold, tInt, clock[..n]) + if FiredAt(Seconds, hold, tInt, clock, n) then 1 else 0
  }

  /** gaps * d, by addition */
  function Total(gaps: nat, d: nat): nat {
    if gaps == 0 then 0 else Total(gaps - 1, d) + d
  }

  /** The hold after a run that fired is a reading at least that many full intervals after the first. */
  lemma {:induction false} FiringsSinceFirst(hold: time, tInt: time, clock: seq<int>)
    requires Steady(clock) && Firings(hold, tInt, clock) >= 1
    ensures var h := HoldAfter(Seconds, hold, tInt, clock);
            h <= clock[|clock| - 1] && Total(Firings(hold, tInt, clock) - 1, tInt + 1) <= h - clock[0]
  {
    var before := clock[..|clock| - 1];
    if Firings(hold, tInt, before) >= 1 {
      FiringsSinceFirst(hold, tInt, before);
    }
  }

  lemma {:induction false} TotalIsProduct(gaps: nat, d: nat)
    ensures Total(gaps, d) == gaps * d
  {
    if gaps > 0 {
      TotalIsProduct(gaps - 1, d);
      assert gaps * d == (gaps - 1) * d + d;
    }
  }

  /** n firings need n - 1 full intervals: at most T / (tInt + 1) + 1 fall in a window of length T. */
  lemma FiringsBounded(hold: time, tInt: time, clock: seq<int>)
    requires Steady(clock) && clock != []
    ensures var n := Firings(hold, tInt, clock);
            n >= 1 ==> (n - 1) * (tInt + 1) <= clock[|clock| - 1] - clock[0]
  {
    var n := Firings(hold, tInt, clock);
    if n >= 1 {
      FiringsSinceFirst(hold, tInt, clock);
      TotalIsProduct(n - 1, tInt + 1);
    }
  }

  // ---------- the two forms ----------

  /** On readings that fit a `long`, the forms decide alike exactly when the clock is not behind the hold. */
  lemma FormsAgreeExactly(hold: time, now: time, tInt: time)
    ensures Fires(Seconds, hold, now, tInt) == Fires(Milliseconds, hold, now, tInt) <==> hold <= now
    ensures now < hold ==> Fires(Milliseconds, hold, now, tInt)
  {
  }

  /** So on a steady clock from the hold on they agree throughout. */
  lemma {:induction false} FormsAgreeOnSteadyClock(hold: time, tInt: time, clock: seq<int>)
    requires SteadyFrom(hold, clock)
    ensures HoldAfter(Seconds, hold, tInt, clock) == HoldAfter(Milliseconds, hold, tInt, clock)
    ensures hold <= HoldAfter(Seconds, hold, tInt, clock)
    ensures clock != [] ==> HoldAfter(Seconds, hold, tInt, clock) <= clock[|clock| - 1]
    ensures forall k :: 0 <= k < |clock| ==>
              FiredAt(Seconds, hold, tInt, clock, k) == FiredAt(Milliseconds, hold, tInt, clock, k)
  {
    if clock != [] {
      var n := |clock| - 1;
      var before := clock[..n];
      FormsAgreeOnSteadyClock(hold, tInt, before);
      FormsAgreeExactly(HoldAfter(Seconds, hold, tInt, before), clock[n], tInt);
      forall k | 0 <= k < n
        ensures FiredAt(Seconds, hold, tInt, clock, k) == FiredAt(Milliseconds, hold, tInt, clock, k)
      {
        assert before[..k] == clock[..k];
        assert FiredAt(Seconds, hold, tInt, before, k) == FiredAt(Milliseconds, hold, tInt, before, k);
      }
    }
  }

  /**
   * The milliseconds form keeps its interval after a firing exactly when that reading fits the `long` it is stored in;
   * from 2^31 milliseconds on, it fires again at once.
   */
  lemma MillisecondsSpacedExactly(now: int, tInt: time)
    requires 0 <= now < 0x4000_0000_0000_0000
    ensures (forall later :: now <= later <= now + tInt ==> !Fires(Milliseconds, Signed32(now), later, tInt))
            <==> now < 0x8000_0000
  {
    if now >= 0x8000_0000 {
      assert Fires(Milliseconds, Signed32(now), now, tInt);
    }
  }

  // ---------- the milliseconds form over a run ----------

  /** Far enough from the 64-bit wrap. */
  const MS_BOUND: int := 0x4000_0000_0000_0000

  lemma FiresWithin(hold: int, now: int, tInt: time)
    requires -0x8000_0000 <= hold <= now < MS_BOUND
    ensures Fires(Milliseconds, hold, now, tInt) <==> now - hold > tInt
  {
    assert 0 <= now - hold < TWO_TO_THE_64 && 0 <= tInt < TWO_TO_THE_64;
  }

  lemma FiredInPrefix(form: Form, hold: int, tInt: int, clock: seq<int>, n: nat, k: nat)
    requires k < n <= |clock|
    ensures FiredAt(form, hold, tInt, clock[..n], k) == FiredAt(form, hold, tInt, clock, k)
  {
    assert clock[..n][..k] == clock[..k];
  }

  /** Until the next firing, the hold is the reading that fired, cut to a `long`. */
  lemma HoldUntil(form: Form, hold: int, tInt: int, clock: seq<int>, i: nat, j: nat)
    requires i < j <= |clock| && FiredAt(form, hold, tInt, clock, i)
    requires forall k :: i < k < j ==> !FiredAt(form, hold, tInt, clock, k)
    ensures HoldAfter(form, hold, tInt, clock[..j]) == Signed32(clock[i])
  {
    var before := clock[..j];
    LastFiredIsLast(form, hold, tInt, before);
    var r := LastFired(form, hold, tInt, before);
    FiredInPrefix(form, hold, tInt, clock, j, i);
    if r > i {
      FiredInPrefix(form, hold, tInt, clock, j, r);
    }
    HoldIsLastFiring(form, hold, tInt, before);
  }

  /** The first firing after i, if there is one at k. */
  lemma {:induction false} FirstFiring(form: Form, hold: int, tInt: int, clock: seq<int>, i: nat, k: nat)
    returns (j: nat)
    requires i < k < |clock| && FiredAt(form, hold, tInt, clock, k)
    ensures i < j <= k && FiredAt(form, hold, tInt, clock, j)
    ensures forall m :: i < m < j ==> !FiredAt(form, hold, tInt, clock, m)
    decreases k
  {
    if m :| i < m < k && FiredAt(form, hold, tInt, clock, m) {
      j := FirstFiring(form, hold, tInt, clock, i, m);
    } else {
      j := k;
    }
  }

  /** Any two firings are more than the interval apart. */
  predicate FiringsApart(form: Form, hold: int, tInt: int, clock: seq<int>) {
    forall i, k ::
      0 <= i < k < |clock| && FiredAt(form, hold, tInt, clock, i) && FiredAt(form, hold, tInt, clock, k) ==>
        clock[k] - clock[i] > tInt
  }

  lemma LateIsBehind(now: nat)
    requires now >= 0x8000_0000
    ensures -0x8000_0000 <= Signed32(now) <= now - TWO_TO_THE_32
  {
  }

  /** From 2^31 milliseconds on, the reading after a firing always fires again. */
  lemma FiresAgain(hold: time, tInt: time, clock: seq<int>, k: nat)
    requires Ascending(clock, MS_BOUND) && k + 1 < |clock|
    requires FiredAt(Milliseconds, hold, tInt, clock, k) && clock[k] >= 0x8000_0000
    ensures FiredAt(Milliseconds, hold, tInt, clock, k + 1)
  {
    HoldUntil(Milliseconds, hold, tInt, clock, k, k + 1);
    LateIsBehind(clock[k]);
    FiresWithin(Signed32(clock[k]), clock[k + 1], tInt);
  }

  /** A reading that fired late, with the next reading too soon. */
  predicate LateAndSoon(hold: time, tInt: time, clock: seq<int>, k: nat)
    requires k + 1 < |clock|
  {
    FiredAt(Milliseconds, hold, tInt, clock, k) && clock[k] >= 0x8000_0000 && clock[k + 1] - clock[k] <= tInt
  }

  lemma ApartFromNext(hold: time, tInt: time, clock: seq<int>, i: nat, k: nat)
    requires Ascending(clock, MS_BOUND) && i < k < |clock|
    requires FiredAt(Milliseconds, hold, tInt, clock, i) && FiredAt(Milliseconds, hold, tInt, clock, k)
    requires !LateAndSoon(hold, tInt, clock, i)
    ensures clock[k] - clock[i] > tInt
  {
    var j := FirstFiring(Milliseconds, hold, tInt, clock, i, k);
    HoldUntil(Milliseconds, hold, tInt, clock, i, j);
    if clock[i] >= 0x8000_0000 {
      FiresAgain(hold, tInt, clock, i);
    } else {
      FiresWithin(clock[i], clock[j], tInt);
    }
  }

  /**
   * Over a run on a clock that does not step back, the milliseconds form keeps its interval exactly when no reading
   * from 2^31 on fires with another reading within the interval after it.
   */
  lemma MillisecondsApartExactly(hold: time, tInt: time, clock: seq<int>)
    requires Ascending(clock, MS_BOUND)
    ensures FiringsApart(Milliseconds, hold, tInt, clock) <==>
            forall k :: 0 <= k < |clock| - 1 ==> !LateAndSoon(hold, tInt, clock, k)
  {
    if k :| 0 <= k < |clock| - 1 && LateAndSoon(hold, tInt, clock, k) {
      FiresAgain(hold, tInt, clock, k);
    } else {
      forall i, k | 0 <= i < k < |clock| && FiredAt(Milliseconds, hold, tInt, clock, i)
                    && FiredAt(Milliseconds, hold, tInt, clock, k)
        ensures clock[k] - clock[i] > tInt
      {
        ApartFromNext(hold, tInt, clock, i, k);
      }
    }
  }

  /** For one, two readings at 2^31 both fire. */
  lemma FiresTwiceAtOnce(tInt: time)
    ensures !FiringsApart(Milliseconds, 0, tInt, [0x8000_0000, 0x8000_0000])
  {
    var clock := [0x8000_0000, 0x8000_0000];
    FiresWithin(0, 0x8000_0000, tInt);
    assert clock[..0] == [] && FiredAt(Milliseconds, 0, tInt, clock, 0);
    FiresAgain(0, tInt, clock, 0);
  }

  /** Polled at least once per interval, it does so exactly when every firing but one at the very end is below 2^31. */
  lemma MillisecondsPolled(hold: time, tInt: time, clock: seq<int>)
    requires Ascending(clock, MS_BOUND)
    requires forall k :: 0 <= k < |clock| - 1 ==> clock[k + 1] - clock[k] <= tInt
    ensures FiringsApart(Milliseconds, hold, tInt, clock) <==>
            forall k :: 0 <= k < |clock| - 1 && FiredAt(Milliseconds, hold, tInt, clock, k) ==> clock[k] < 0x8000_0000
  {
    MillisecondsApartExactly(hold, tInt, clock);
    forall k | 0 <= k < |clock| - 1
      ensures LateAndSoon(hold, tInt, clock, k) <==>
              FiredAt(Milliseconds, hold, tInt, clock, k) && clock[k] >= 0x8000_0000
    {
    }
  }
}
