/** fsntp.c: waiting for the clock to be set, with a time-out that a sticky flag disables. */
module Sntp {

  /** A reading of the 31-bit clock, in seconds since 1970. */
  type time = x: int | 0 <= x < 0x8000_0000

  const DEFAULT_SNTP_TMOUT := 30

  /** 2016-01-01 00:00:00 UTC: from here on tm_year is at least 116. */
  const YEAR_2016: int := 16801 * 86400

  /** The days of a year of the Gregorian calendar. */
  function DaysOf(year: nat): nat {
    if year % 4 == 0 && (year % 100 != 0 || year % 400 == 0) then 366 else 365
  }

  /** The days from 1970 to the beginning of a year. */
  function DaysBefore(year: nat): nat
    requires year >= 1970
  {
    if year == 1970 then 0 else DaysBefore(year - 1) + DaysOf(year - 1)
  }

  lemma {:induction false} YearsAscend(first: nat, second: nat)
    requires 1970 <= first <= second
    ensures DaysBefore(first) <= DaysBefore(second)
    decreases second
  {
    if first < second {
      YearsAscend(first, second - 1);
    }
  }

  /** 2000 was a leap year. */
  lemma LeapUntil2016(year: nat)
    requires 1970 <= year < 2016
    ensures DaysOf(year) == if year % 4 == 0 then 366 else 365
  {
    assert year % 100 == 0 ==> year == 2000;
  }

  lemma Beginning2016()
    ensures YEAR_2016 == DaysBefore(2016) * 86400
  {
    for year := 1970 to 2016
      invariant DaysBefore(year) == 365 * (year - 1970) + (year - 1969) / 4
    {
      LeapUntil2016(year);
    }
  }

  /** A reading's year is compared with 2016 through YEAR_2016. */
  lemma YearIs2016(now: time, year: nat)
    requires year >= 1970 && DaysBefore(year) * 86400 <= now < DaysBefore(year + 1) * 86400
    ensures year - 1900 >= 2016 - 1900 <==> now >= YEAR_2016
  {
    Beginning2016();
    if year >= 2016 {
      YearsAscend(2016, year);
    } else {
      YearsAscend(year + 1, 2016);
    }
  }

  /** What one round sees: whether the callback ran since the last round, and its two clock readings. */
  datatype Round = Round(synced: bool, now: time, check: time)

  /** The results 0 and -2; the rounds given may also end before the loop does. */
  datatype Result = TimeSet | TimedOut | StillWaiting

  /** How the wait ends, the flag then, and the rounds it took. */
  datatype End = End(result: Result, flag: bool, rounds: nat)

  function Wait(flag: bool, start: time, tmt: int, rounds: seq<Round>): End
    decreases |rounds|
  {
    if rounds == [] then End(StillWaiting, flag, 0)
    else
      var r := rounds[0];
      var f := flag || r.synced;
      if !f && r.check - start > tmt then End(TimedOut, f, 1)
      else if r.now >= YEAR_2016 then End(TimeSet, f, 1)
      else
        var rest := Wait(f, start, tmt, rounds[1..]);
        rest.(rounds := rest.rounds + 1)
  }

  class Client {
    var timeSyncFlag: bool

    constructor ()
      ensures !timeSyncFlag
    {
      timeSyncFlag := false;
    }

    method TimeSyncNotificationCb()
      modifies this
      ensures timeSyncFlag
    {
      timeSyncFlag := true;
    }

    method SntpInitTime(tmout: int, start: time, rounds: seq<Round>) returns (result: Result)
      modifies this
      ensures var end := Wait(old(timeSyncFlag), start, if tmout == 0 then 30 else tmout, rounds);
              result == end.result && timeSyncFlag == end.flag
    {
      var tmt := DEFAULT_SNTP_TMOUT;
      if tmout != 0 {
        tmt := tmout;
      }
      var yearReached := false;
      var i := 0;
      ghost var whole := Wait(timeSyncFlag, start, tmt, rounds);
      while !yearReached
        invariant 0 <= i <= |rounds|
        invariant !yearReached ==>
                    var rest := Wait(timeSyncFlag, start, tmt, rounds[i..]);
                    rest.result == whole.result && rest.flag == whole.flag
        invariant yearReached ==> whole.result == TimeSet && whole.flag == timeSyncFlag
        decreases |rounds| - i, !yearReached
      {
        if i == |rounds| {
          return StillWaiting;
        }
        assert rounds[i..][1..] == rounds[i + 1..];
        if rounds[i].synced {
          TimeSyncNotificationCb();
        }
        yearReached := rounds[i].now >= YEAR_2016;
        if !timeSyncFlag && rounds[i].check - start > tmt {
          return TimedOut;
        }
        i := i + 1;
      }
      result := TimeSet;
    }
  }

  // ---------- what the result means ----------

  /** The flag after the first n rounds. */
  predicate FlagAfter(flag: bool, rounds: seq<Round>, n: nat)
    requires n <= |rounds|
  {
    flag || exists k :: 0 <= k < n && rounds[k].synced
  }

  lemma FlagAfterCons(flag: bool, rounds: seq<Round>, n: nat)
    requires 1 <= n <= |rounds|
    ensures FlagAfter(flag, rounds, n) == FlagAfter(flag || rounds[0].synced, rounds[1..], n - 1)
  {
  }

  /** Round k finds the flag clear and more than the limit elapsed. */
  predicate Late(flag: bool, start: time, limit: int, rounds: seq<Round>, k: nat)
    requires k < |rounds|
  {
    !FlagAfter(flag, rounds, k + 1) && rounds[k].check - start > limit
  }

  /** The wait ends with the first round that is late or reads 2016 or later, and being late comes first. */
  lemma {:induction false} WaitExactly(flag: bool, start: time, limit: int, rounds: seq<Round>, n: nat)
    requires n <= |rounds|
    requires forall k :: 0 <= k < n ==> !Late(flag, start, limit, rounds, k) && rounds[k].now < YEAR_2016
    ensures n == |rounds| ==> Wait(flag, start, limit, rounds).result == StillWaiting
    ensures n < |rounds| && Late(flag, start, limit, rounds, n) ==>
              Wait(flag, start, limit, rounds) == End(TimedOut, false, n + 1)
    ensures n < |rounds| && !Late(flag, start, limit, rounds, n) && rounds[n].now >= YEAR_2016 ==>
              Wait(flag, start, limit, rounds) == End(TimeSet, FlagAfter(flag, rounds, n + 1), n + 1)
    decreases |rounds|
  {
    if n > 0 {
      var f := flag || rounds[0].synced;
      forall k | 0 <= k < |rounds| - 1
        ensures Late(f, start, limit, rounds[1..], k) == Late(flag, start, limit, rounds, k + 1)
      {
        FlagAfterCons(flag, rounds, k + 2);
      }
      assert !Late(flag, start, limit, rounds, 0);
      WaitExactly(f, start, limit, rounds[1..], n - 1);
      if n < |rounds| {
        FlagAfterCons(flag, rounds, n + 1);
      }
    }
  }

  /** Success: the last reading was in 2016 or later. Time-out: the flag was read clear with too much time elapsed. */
  lemma {:induction false} WaitEnds(flag: bool, start: time, tmt: int, rounds: seq<Round>)
    ensures var end := Wait(flag, start, tmt, rounds);
            && end.rounds <= |rounds|
            && end.flag == FlagAfter(flag, rounds, end.rounds)
            && (end.result == StillWaiting ==> end.rounds == |rounds|)
            && (end.result != StillWaiting ==> end.rounds >= 1)
            && (end.result == TimeSet ==>
                  var last := rounds[end.rounds - 1];
                  last.now >= YEAR_2016 && (end.flag || last.check - start <= tmt))
            && (end.result == TimedOut ==> !end.flag && rounds[end.rounds - 1].check - start > tmt)
    decreases |rounds|
  {
    if rounds != [] {
      WaitEnds(flag || rounds[0].synced, start, tmt, rounds[1..]);
      var end := Wait(flag, start, tmt, rounds);
      FlagAfterCons(flag, rounds, end.rounds);
      if end.rounds > 1 {
        assert rounds[1..][end.rounds - 2] == rounds[end.rounds - 1];
      }
    }
  }

  lemma {:induction false} ClearFlagEnds(start: time, tmt: int, rounds: seq<Round>, elapsed: nat)
    requires forall k :: 0 <= k < |rounds| ==>
               !rounds[k].synced && rounds[k].check - start >= elapsed + 2 * (k + 1)
    requires 2 * |rounds| + elapsed > tmt
    ensures |rounds| > 0 ==> Wait(false, start, tmt, rounds).result != StillWaiting
    ensures var n := Wait(false, start, tmt, rounds).rounds;
            n <= 1 || 2 * (n - 1) + elapsed <= tmt
  {
    if rounds != [] {
      var r, rest := rounds[0], rounds[1..];
      forall k | 0 <= k < |rest| ensures !rest[k].synced && rest[k].check - start >= elapsed + 2 + 2 * (k + 1) {
        assert rest[k] == rounds[k + 1];
      }
      if r.check - start <= tmt && r.now < YEAR_2016 {
        ClearFlagEnds(start, tmt, rest, elapsed + 2);
      }
    }
  }

  /** With the flag clear and every delay worth two seconds or more, a wait ends within limit/2 + 1 rounds. */
  lemma EndsWithin(start: time, limit: nat, rounds: seq<Round>)
    requires forall k :: 0 <= k < |rounds| ==> !rounds[k].synced && rounds[k].check - start >= 2 * (k + 1)
    requires |rounds| >= limit / 2 + 1
    ensures var end := Wait(false, start, limit, rounds);
            end.result != StillWaiting && end.rounds <= limit / 2 + 1
  {
    ClearFlagEnds(start, limit, rounds, 0);
  }

  /** So a call ends within tmout/2 + 1 rounds; with the default, sixteen; with a negative argument, one. */
  lemma EndsWithinLimit(start: time, tmout: int, rounds: seq<Round>, most: nat)
    requires forall k :: 0 <= k < |rounds| ==> !rounds[k].synced && rounds[k].check - start >= 2 * (k + 1)
    requires most == (if tmout > 0 then tmout / 2 + 1 else if tmout == 0 then 16 else 1) && |rounds| >= most
    ensures var end := Wait(false, start, if tmout == 0 then 30 else tmout, rounds);
            end.result != StillWaiting && end.rounds <= most
  {
    if tmout >= 0 {
      EndsWithin(start, if tmout == 0 then 30 else tmout, rounds);
    }
  }

  /** On a clock that does not step back between its two readings, success within the limit implies the callback ran. */
  lemma SuccessMeansSynced(flag: bool, start: time, tmt: int, rounds: seq<Round>)
    requires start + tmt < YEAR_2016
    requires forall k :: 0 <= k < |rounds| ==> rounds[k].now <= rounds[k].check
    requires Wait(flag, start, tmt, rounds).result == TimeSet
    ensures Wait(flag, start, tmt, rounds).flag
  {
    WaitEnds(flag, start, tmt, rounds);
  }

  /** Once the flag is set, the wait cannot time out, and it never ends exactly when no reading reaches 2016. */
  lemma {:induction false} StickyFlag(start: time, tmt: int, rounds: seq<Round>)
    ensures var end := Wait(true, start, tmt, rounds);
            && end.flag && end.result != TimedOut
            && (end.result == StillWaiting <==> forall k :: 0 <= k < |rounds| ==> rounds[k].now < YEAR_2016)
  {
    if rounds != [] {
      StickyFlag(start, tmt, rounds[1..]);
      assert forall k :: 1 <= k < |rounds| ==> rounds[k] == rounds[1..][k - 1];
      assert forall k :: 0 <= k < |rounds[1..]| ==> rounds[1..][k] == rounds[k + 1];
    }
  }

  /** A clock that stops before 2016 keeps a wait with the flag set going for any number of rounds. */
  lemma StoppedClock(tmt: int, n: nat, now: time)
    requires now < YEAR_2016
    ensures Wait(true, now, tmt, seq(n, _ => Round(false, now, now))).result == StillWaiting
  {
    StickyFlag(now, tmt, seq(n, _ => Round(false, now, now)));
  }

  // ---------- the retry loop of app_main ----------

  datatype Call = Call(start: time, rounds: seq<Round>)

  /** The flag after the calls made so far. */
  function FlagAfterCalls(tmt: int, calls: seq<Call>): bool {
    if calls == [] then false
    else
      var last := calls[|calls| - 1];
      Wait(FlagAfterCalls(tmt, calls[..|calls| - 1]), last.start, tmt, last.rounds).flag
  }

  function ResultOfCall(tmt: int, calls: seq<Call>, k: nat): Result
    requires k < |calls|
  {
    Wait(FlagAfterCalls(tmt, calls[..k]), calls[k].start, tmt, calls[k].rounds).result
  }

  /** The flag is never cleared: after a call that leaves it set, no later call times out. */
  lemma {:induction false} NoLaterTimeout(tmt: int, calls: seq<Call>, j: nat, k: nat)
    requires j <= k < |calls| && FlagAfterCalls(tmt, calls[..j])
    ensures FlagAfterCalls(tmt, calls[..k]) && ResultOfCall(tmt, calls, k) != TimedOut
    decreases k
  {
    if j < k {
      NoLaterTimeout(tmt, calls, j, k - 1);
      assert calls[..k][..k - 1] == calls[..k - 1];
      StickyFlag(calls[k - 1].start, tmt, calls[k - 1].rounds);
    }
    StickyFlag(calls[k].start, tmt, calls[k].rounds);
  }
}
