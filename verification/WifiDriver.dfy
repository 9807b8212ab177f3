/** WifiConnect.c's functions over their static variables; each is proved to take the steps of the machine. */
module WifiDriver {
  import opened Text
  import opened WifiConnect

  datatype Err = ESP_OK | ESP_ERR_INVALID_STATE | STILL_WAITING

  lemma RunSnoc(s: State, steps: seq<Step>, step: Step)
    ensures Run(s, steps + [step]) == Next(Run(s, steps), step)
    ensures Events(steps + [step]) == Events(steps) + if IsEvent(step) then [step] else []
    ensures |Families(steps + [step])| == |Families(steps)| + if OurAddress(step) then 1 else 0
    ensures !OurAddress(step) ==> Families(steps + [step]) == Families(steps)
  {
    assert (steps + [step])[..|steps + [step]| - 1] == steps;
  }

  /** What a task has seen that waited for two addresses, done or not: the first two, or all arrivals in vain. */
  predicate Saw(done: bool, during: seq<Step>, arrivals: seq<Step>) {
    var f := Families(arrivals);
    && Interleaves(during, arrivals)
    && if done then |f| >= 2 && Families(during) == f[..2] else |f| < 2 && Events(during) == arrivals
  }

  lemma SeenThrough(during: seq<Step>, arrivals: seq<Step>, next: nat)
    requires next <= |arrivals| && Events(during) == arrivals[..next]
    ensures Families(during) <= Families(arrivals) && Events(during) <= arrivals
    ensures next == |arrivals| ==> Families(during) == Families(arrivals) && Events(during) == arrivals
  {
    FamiliesOfEvents(during);
    FamiliesPrefix(arrivals, next);
    assert arrivals[..|arrivals|] == arrivals;
  }

  /** Returning, and starting before, change nothing about it. */
  lemma ReturnAfter(s: State, during: seq<Step>, arrivals: seq<Step>)
    requires Saw(true, during, arrivals)
    ensures Saw(true, during + [Return], arrivals) && Events(during + [Return]) == Events(during)
    ensures Run(s, [CallConnect, CreateSemaphore] + (during + [Return])) ==
            Next(Run(Run(s, [CallConnect, CreateSemaphore]), during), Return)
  {
    var begin := Run(s, [CallConnect, CreateSemaphore]);
    RunSnoc(begin, during, Return);
    RunAppend(s, [CallConnect, CreateSemaphore], during + [Return]);
  }

  class Connection {
    var activeInterfaces: int
    var semaphore: Option<Semaphore>
    var wifiConnect: bool
    var netif: bool
    var callbacks: Callbacks
    var stopRegistered: nat
    /** The loop counter of the waiting task. */
    var taken: nat
    ghost var phase: Phase
    ghost var delivered: nat
    ghost var accepted: nat
    /** A callback gave to a NULL semaphore, and the device has crashed. */
    ghost var fault: bool

    ghost function View(): State
      reads this
    {
      State(activeInterfaces, semaphore, wifiConnect, netif, callbacks, stopRegistered,
            phase, taken, delivered, accepted, fault)
    }

    constructor ()
      ensures View() == INITIAL
    {
      activeInterfaces, semaphore, wifiConnect, netif, callbacks := 0, None, false, false, Callbacks(0, 0, 0, 0, 0);
      stopRegistered, taken, phase, delivered, accepted, fault := 0, 0, Idle, 0, 0, false;
    }

    /** xSemaphoreGive(s_semph_get_ip_addrs) */
    method SemaphoreGive()
      modifies this`semaphore, this`delivered, this`accepted, this`fault
      ensures View() == Give(old(View()))
    {
      if semaphore.None? {
        fault := true;
        return;
      }
      var sem := semaphore.value;
      if sem.count < sem.max {
        semaphore := Some(sem.(count := sem.count + 1));
        accepted := accepted + 1;
      }
      delivered := delivered + 1;
    }

    /** The event loop calls it only while it is registered. */
    method OnGotIp(desc: string)
      requires callbacks.onGotIp > 0 && !fault
      modifies this
      ensures View() == Next(old(View()), GotIp(desc))
    {
      if !IsOurNetif(TAG, desc) {
        return;
      }
      SemaphoreGive();
    }

    method OnGotIpv6(desc: string, kind: Ipv6Type)
      requires callbacks.onGotIpv6 > 0 && !fault
      modifies this
      ensures View() == Next(old(View()), GotIpv6(desc, kind))
    {
      if !IsOurNetif(TAG, desc) {
        return;
      }
      if kind == LINK_LOCAL {
        SemaphoreGive();
      }
    }

    /** The event loop calls a callback if it is registered, in any phase of a call. */
    method Dispatch(event: Step)
      requires IsEvent(event) && !fault
      modifies this
      ensures View() == Next(old(View()), event)
    {
      match event
      case GotIp(desc) =>
        if callbacks.onGotIp > 0 { OnGotIp(desc); }
      case GotIpv6(desc, kind) =>
        if callbacks.onGotIpv6 > 0 { OnGotIpv6(desc, kind); }
      case StaConnected =>
        if callbacks.onWifiConnect > 0 { wifiConnect := true; }
      case StaDisconnected =>
        if callbacks.onWifiDisconnect > 0 { wifiConnect := false; }
    }

    method WifiStart()
      requires phase == Idle && semaphore.None? && !fault
      modifies this
      ensures View() == Next(old(View()), CallConnect)
    {
      phase := Starting;
      netif := true;
      callbacks := callbacks.(defaults := callbacks.defaults + 1);
      callbacks := callbacks.(onWifiDisconnect := callbacks.onWifiDisconnect + 1);
      callbacks := callbacks.(onGotIp := callbacks.onGotIp + 1);
      callbacks := callbacks.(onWifiConnect := callbacks.onWifiConnect + 1);
      callbacks := callbacks.(onGotIpv6 := callbacks.onGotIpv6 + 1);
    }

    /** The rest of start(), and the shutdown hook that its caller registers next. */
    method SemaphoreCreate()
      requires phase == Starting && activeInterfaces == 0 && !fault
      modifies this
      ensures View() == Next(old(View()), CreateSemaphore)
    {
      activeInterfaces := activeInterfaces + 1;
      semaphore := Some(Semaphore(activeInterfaces * 2, 0));
      stopRegistered := stopRegistered + 1;
      taken, phase, delivered, accepted := 0, Waiting, 0, 0;
    }

    method Start()
      requires phase == Idle && semaphore.None? && activeInterfaces == 0 && !fault
      modifies this
      ensures View() == Run(old(View()), [CallConnect, CreateSemaphore])
    {
      RunTwo(View(), CallConnect, CreateSemaphore);
      WifiStart();
      SemaphoreCreate();
    }

    /**
     * The waiting task between two takes: by the steps `during`, `next` of the arrivals delivered. No give has been
     * dropped, since callbacks run only while the count is zero.
     */
    ghost predicate Waits(begin: State, during: seq<Step>, arrivals: seq<Step>, next: nat)
      reads this
    {
      && View() == Run(begin, during) && phase == Waiting && semaphore.Some? && !fault
      && Inv(View()) && next <= |arrivals|
      && (forall k :: 0 <= k < |during| ==> DuringConnect(during[k])) && Events(during) == arrivals[..next]
      && semaphore.value.count <= 1
      && delivered == taken + semaphore.value.count == |Families(during)|
    }

    method SemaphoreTake(ghost begin: State, ghost during: seq<Step>, ghost arrivals: seq<Step>, ghost next: nat)
      requires Waits(begin, during, arrivals, next) && taken < activeInterfaces * 2
      requires semaphore.value.count > 0
      modifies this`semaphore, this`taken
      ensures Waits(begin, during + [Take], arrivals, next) && taken == old(taken) + 1 && semaphore.value.count == 0
    {
      NextKeepsInv(View(), Take);
      RunSnoc(begin, during, Take);
      semaphore := Some(semaphore.value.(count := semaphore.value.count - 1));
      taken := taken + 1;
    }

    /** One arrival, while the task waits. */
    method DispatchWaiting(ghost begin: State, ghost during: seq<Step>, arrivals: seq<Step>, next: nat)
      requires Waits(begin, during, arrivals, next) && next < |arrivals| && IsEvent(arrivals[next])
      requires semaphore.value.count == 0
      modifies this
      ensures Waits(begin, during + [arrivals[next]], arrivals, next + 1) && taken == old(taken)
    {
      WaitingStep(View(), arrivals[next]);
      NextKeepsInv(View(), arrivals[next]);
      RunSnoc(begin, during, arrivals[next]);
      Dispatch(arrivals[next]);
    }

    /** A blocking take: callbacks run until one of them gives, if the arrivals last. */
    method AwaitGive(ghost begin: State, ghost during: seq<Step>, arrivals: seq<Step>, first: nat)
      returns (next: nat, ghost longer: seq<Step>)
      requires Waits(begin, during, arrivals, first) && forall k :: 0 <= k < |arrivals| ==> IsEvent(arrivals[k])
      modifies this
      ensures Waits(begin, longer, arrivals, next) && taken == old(taken)
      ensures semaphore.value.count == 0 ==> next == |arrivals|
    {
      next, longer := first, during;
      while semaphore.value.count == 0 && next < |arrivals|
        invariant Waits(begin, longer, arrivals, next) && taken == old(taken)
        decreases |arrivals| - next
      {
        DispatchWaiting(begin, longer, arrivals, next);
        longer := longer + [arrivals[next]];
        next := next + 1;
      }
    }

    /** The loop that takes once per address awaited; it ends unless the arrivals run out. */
    method WaitForAddresses(ghost begin: State, arrivals: seq<Step>)
      returns (done: bool, ghost during: seq<Step>)
      requires Waits(begin, [], arrivals, 0) && taken == 0 && Inv(begin) && JustStarted(begin)
      requires forall k :: 0 <= k < |arrivals| ==> IsEvent(arrivals[k])
      modifies this
      ensures View() == Run(begin, during) && Inv(View()) && !fault && phase == Waiting && (done ==> taken == 2)
      ensures Saw(done, during, arrivals) && wifiConnect == LastStation(begin.wifiConnect, Events(during))
    {
      during := [];
      var at: nat := 0;
      while taken < activeInterfaces * 2
        invariant Waits(begin, during, arrivals, at) && semaphore.value.count == 0
        decreases 2 - taken
      {
        at, during := AwaitGive(begin, during, arrivals, at);
        if semaphore.value.count == 0 {
          SeenThrough(during, arrivals, at);
          FlagDuringConnect(begin, during);
          return false, during;
        }
        SemaphoreTake(begin, during, arrivals, at);
        during := during + [Take];
      }
      SeenThrough(during, arrivals, at);
      FlagDuringConnect(begin, during);
      done := true;
    }

    /**
     * One schedule of a connect: start() runs undisturbed, and the event loop delivers `arrivals`, in order,
     * whenever the task waits. The call returns exactly when they hold two addresses of ours, with the first two.
     */
    method FisiExampleConnect(arrivals: seq<Step>) returns (err: Err, ghost during: seq<Step>)
      requires Inv(View()) && !fault && phase == Idle && forall k :: 0 <= k < |arrivals| ==> IsEvent(arrivals[k])
      modifies this
      ensures old(semaphore).Some? ==> err == ESP_ERR_INVALID_STATE && View() == old(View())
      ensures old(semaphore).None? ==>
                && View() == Run(old(View()), [CallConnect, CreateSemaphore] + during)
                && err == (if |Families(arrivals)| >= 2 then ESP_OK else STILL_WAITING)
                && Saw(err == ESP_OK, during, arrivals)
                && wifiConnect == LastStation(old(wifiConnect), Events(during))
      ensures err == ESP_OK ==> phase == Idle && semaphore.Some? && activeInterfaces == 1
    {
      if semaphore.Some? {
        return ESP_ERR_INVALID_STATE, [];
      }
      ConnectStarts(View());
      ghost var begin := Run(View(), [CallConnect, CreateSemaphore]);
      Start();
      var done;
      done, during := WaitForAddresses(begin, arrivals);
      if !done {
        RunAppend(old(View()), [CallConnect, CreateSemaphore], during);
        return STILL_WAITING, during;
      }
      ReturnAfter(old(View()), during, arrivals);
      during := during + [Return];
      phase := Idle;
      err := ESP_OK;
    }

    method WifiStop(wifiNotInit: bool)
      modifies this`callbacks, this`netif
      ensures callbacks == Unregister(old(callbacks), wifiNotInit)
      ensures netif == (old(netif) && wifiNotInit)
    {
      callbacks := callbacks.(onWifiDisconnect := Less(callbacks.onWifiDisconnect));
      callbacks := callbacks.(onGotIp := Less(callbacks.onGotIp));
      callbacks := callbacks.(onGotIpv6 := Less(callbacks.onGotIpv6));
      callbacks := callbacks.(onWifiConnect := Less(callbacks.onWifiConnect));
      if wifiNotInit {
        return;
      }
      callbacks := callbacks.(defaults := Less(callbacks.defaults));
      netif := false;
    }

    /** stop(), and the shutdown hook that its caller unregisters next. */
    method StopAll(wifiNotInit: bool)
      requires Inv(View()) && !fault && phase == Stopping
      modifies this
      ensures View() == Next(old(View()), Stop(wifiNotInit))
    {
      WifiStop(wifiNotInit);
      activeInterfaces := activeInterfaces - 1;
      stopRegistered := stopRegistered - 1;
      phase := Idle;
    }

    method ExampleDisconnect(wifiNotInit: bool) returns (err: Err)
      requires Inv(View()) && !fault && phase == Idle
      modifies this
      ensures old(semaphore).None? ==> err == ESP_ERR_INVALID_STATE && View() == old(View())
      ensures old(semaphore).Some? ==>
                err == ESP_OK && View() == Run(old(View()), [CallDisconnect, Stop(wifiNotInit)])
    {
      if semaphore.None? {
        return ESP_ERR_INVALID_STATE;
      }
      RunTwo(View(), CallDisconnect, Stop(wifiNotInit));
      NextKeepsInv(View(), CallDisconnect);
      semaphore := None;
      phase := Stopping;
      StopAll(wifiNotInit);
      err := ESP_OK;
    }
  }
  /** So this schedule's connect returns with both families exactly when the first two addresses differ in theirs. */
  lemma ConnectedWithBoth(during: seq<Step>, arrivals: seq<Step>)
    requires Saw(true, during, arrivals)
    ensures BothFamilies(Families(during)) <==> Families(arrivals)[0] != Families(arrivals)[1]
  {
    TwoFamilies(Families(arrivals));
  }
}
