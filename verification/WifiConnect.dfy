/** WifiConnect.c as a state machine: the counting semaphore fed by IP events and the connect/disconnect lifecycle. */
module WifiConnect {
  import opened CTypes
  import opened Text

  const TAG: string := "example_connect"

  // ---------- which interfaces are ours ----------

  /** strncmp(a, b, n) == 0 */
  predicate SameUpTo(a: string, b: string, n: nat) {
    n == 0 || (a == [] && b == []) ||
    (a != [] && b != [] && a[0] == b[0] && SameUpTo(a[1..], b[1..], n - 1))
  }

  predicate IsOurNetif(prefix: string, desc: string) {
    SameUpTo(prefix, desc, Wrap32(|prefix| - 1))
  }

  lemma {:induction false} SameUpToIsPrefix(a: string, b: string, n: nat)
    requires n <= |a|
    ensures SameUpTo(a, b, n) <==> a[..n] <= b
  {
    if n > 0 && b != [] {
      assert a[..n] == [a[0]] + a[1..][..n - 1];
      assert b == [b[0]] + b[1..];
      SameUpToIsPrefix(a[1..], b[1..], n - 1);
    }
  }

  /**
   * The last character of the prefix is not compared: besides the interfaces whose description has the prefix,
   * exactly those are accepted that have all of it but its last character.
   */
  lemma IsOurNetifExact(prefix: string, desc: string)
    requires 1 <= |prefix| < TWO_TO_THE_32
    ensures prefix <= desc ==> IsOurNetif(prefix, desc)
    ensures var n := |prefix| - 1;
            IsOurNetif(prefix, desc) && !(prefix <= desc) <==>
            prefix[..n] <= desc && (|desc| == n || desc[n] != prefix[n])
  {
    SameUpToIsPrefix(prefix, desc, |prefix| - 1);
  }

  /** The station interface that wifi_start names is ours; one named without the tag is not. */
  lemma OwnInterface()
    ensures IsOurNetif(TAG, "example_connect: sta") && !IsOurNetif(TAG, "sta")
  {
    IsOurNetifExact(TAG, "example_connect: sta");
    IsOurNetifExact(TAG, "sta");
  }

  // ---------- the machine ----------

  /** How many times each event callback is registered; `defaults` stands for the driver's own station handlers. */
  datatype Callbacks =
    Callbacks(onWifiDisconnect: nat, onGotIp: nat, onWifiConnect: nat, onGotIpv6: nat, defaults: nat)

  datatype Ipv6Type = UNKNOWN | GLOBAL | LINK_LOCAL | SITE_LOCAL | UNIQUE_LOCAL | IPV4_MAPPED

  datatype Semaphore = Semaphore(max: nat, count: nat)

  /** Where the calling task is: outside any call, inside start(), taking the semaphore, or inside stop(). */
  datatype Phase = Idle | Starting | Waiting | Stopping

  datatype State = State(
    activeInterfaces: int,
    semaphore: Option<Semaphore>,
    wifiConnect: bool,
    netif: bool,
    callbacks: Callbacks,
    stopRegistered: nat,
    phase: Phase,
    taken: nat,
    delivered: nat,
    accepted: nat,
    fault: bool)

  const INITIAL :=
    State(0, None, false, false, Callbacks(0, 0, 0, 0, 0), 0, Idle, 0, 0, 0, false)

  datatype Step =
    | CallConnect
    | CreateSemaphore
    | Take
    | Return
    | CallDisconnect
    | Stop(wifiNotInit: bool)
    | GotIp(desc: string)
    | GotIpv6(desc: string, kind: Ipv6Type)
    | StaConnected
    | StaDisconnected

  function Less(n: nat): nat {
    if n > 0 then n - 1 else 0
  }

  /** The registrations wifi_start adds. */
  function Register(c: Callbacks): Callbacks {
    Callbacks(c.onWifiDisconnect + 1, c.onGotIp + 1, c.onWifiConnect + 1, c.onGotIpv6 + 1, c.defaults + 1)
  }

  /** Those wifi_stop removes: ours always, the driver's only if Wi-Fi was initialised. */
  function Unregister(c: Callbacks, wifiNotInit: bool): Callbacks {
    Callbacks(Less(c.onWifiDisconnect), Less(c.onGotIp), Less(c.onWifiConnect), Less(c.onGotIpv6),
              if wifiNotInit then c.defaults else Less(c.defaults))
  }

  function AddressesAwaited(s: State): nat {
    if s.activeInterfaces < 0 then 0 else s.activeInterfaces * 2
  }

  /** An event that the callbacks registered with the event loop turn into a semaphore give. */
  predicate Qualifies(s: State, step: Step) {
    match step
    case GotIp(desc) => s.callbacks.onGotIp > 0 && IsOurNetif(TAG, desc)
    case GotIpv6(desc, kind) => s.callbacks.onGotIpv6 > 0 && IsOurNetif(TAG, desc) && kind == LINK_LOCAL
    case _ => false
  }

  /** xSemaphoreGive: dropped at the cap, and a fault on a NULL handle. */
  function Give(s: State): State {
    match s.semaphore
    case None => s.(fault := true)
    case Some(sem) =>
      var s1 := s.(delivered := s.delivered + 1);
      if sem.count < sem.max
      then s1.(semaphore := Some(sem.(count := sem.count + 1)), accepted := s.accepted + 1)
      else s1
  }

  /** A step that is not enabled leaves the state as it is; so does a rejected call. */
  function Next(s: State, step: Step): State {
    if s.fault then s else
    match step
    case CallConnect =>
      if s.phase != Idle || s.semaphore.Some? then s
      else s.(phase := Starting, netif := true, callbacks := Register(s.callbacks))
    case CreateSemaphore =>
      if s.phase != Starting then s
      else
        var s1 := s.(activeInterfaces := s.activeInterfaces + 1);
        s1.(phase := Waiting, semaphore := Some(Semaphore(AddressesAwaited(s1), 0)),
            stopRegistered := s.stopRegistered + 1, taken := 0, delivered := 0, accepted := 0)
    case Take =>
      if s.phase == Waiting && s.taken < AddressesAwaited(s) && s.semaphore.Some? && s.semaphore.value.count > 0
      then s.(semaphore := Some(s.semaphore.value.(count := s.semaphore.value.count - 1)), taken := s.taken + 1)
      else s
    case Return =>
      if s.phase == Waiting && s.taken >= AddressesAwaited(s) then s.(phase := Idle) else s
    case CallDisconnect =>
      if s.phase != Idle || s.semaphore.None? then s
      else s.(phase := Stopping, semaphore := None)
    case Stop(wifiNotInit) =>
      if s.phase != Stopping then s
      else
        var s1 := s.(phase := Idle, callbacks := Unregister(s.callbacks, wifiNotInit),
                     activeInterfaces := s.activeInterfaces - 1,
                     stopRegistered := if s.stopRegistered > 0 then s.stopRegistered - 1 else 0);
        if wifiNotInit then s1 else s1.(netif := false)
    case GotIp(_) =>
      if Qualifies(s, step) then Give(s) else s
    case GotIpv6(_, _) =>
      if Qualifies(s, step) then Give(s) else s
    case StaConnected =>
      if s.callbacks.onWifiConnect > 0 then s.(wifiConnect := true) else s
    case StaDisconnected =>
      if s.callbacks.onWifiDisconnect > 0 then s.(wifiConnect := false) else s
  }

  function Run(s: State, steps: seq<Step>): State {
    if steps == [] then s else Next(Run(s, steps[..|steps| - 1]), steps[|steps| - 1])
  }

  // ---------- the invariant ----------

  /**
   * Conservation and no starvation, for any number of interfaces: gives dropped at the cap are never missed.
   * The semaphore exists while the task waits, and not while it is being created or torn down.
   */
  predicate SemaphoreInv(s: State) {
    && (s.phase == Starting || s.phase == Stopping ==> s.semaphore.None?)
    && (s.phase == Waiting ==> s.semaphore.Some?)
    && (s.semaphore.Some? ==>
          var sem := s.semaphore.value;
          && sem.max == AddressesAwaited(s)
          && s.accepted == s.taken + sem.count <= s.delivered
          && sem.count <= sem.max && s.taken <= sem.max
          && sem.count + s.taken >= (if s.delivered < sem.max then s.delivered else sem.max)
          && (s.phase == Idle ==> s.taken == sem.max))
  }

  /** Each of our callbacks is registered n times. */
  predicate Registered(c: Callbacks, n: nat) {
    c.onWifiDisconnect == n && c.onGotIp == n && c.onWifiConnect == n && c.onGotIpv6 == n
  }

  /** The lifecycle, of Wi-Fi alone: the interface count and the registrations in each phase. */
  predicate LifecycleInv(s: State) {
    && s.activeInterfaces == (if s.phase == Stopping || s.semaphore.Some? then 1 else 0)
    && s.stopRegistered == s.activeInterfaces
    && Registered(s.callbacks, if s.phase == Idle && s.semaphore.None? then 0 else 1)
  }

  predicate Inv(s: State) {
    SemaphoreInv(s) && LifecycleInv(s)
  }

  lemma NextKeepsSemaphore(s: State, step: Step)
    requires SemaphoreInv(s)
    ensures SemaphoreInv(Next(s, step))
  {
  }

  lemma NextKeepsLifecycle(s: State, step: Step)
    requires Inv(s)
    ensures LifecycleInv(Next(s, step))
  {
  }

  lemma NextKeepsInv(s: State, step: Step)
    requires Inv(s)
    ensures Inv(Next(s, step))
  {
    NextKeepsSemaphore(s, step);
    NextKeepsLifecycle(s, step);
  }

  lemma {:induction false} RunFromKeepsInv(s: State, steps: seq<Step>)
    requires Inv(s)
    ensures Inv(Run(s, steps))
  {
    if steps != [] {
      RunFromKeepsInv(s, steps[..|steps| - 1]);
      NextKeepsInv(Run(s, steps[..|steps| - 1]), steps[|steps| - 1]);
    }
  }

  lemma RunKeepsInv(steps: seq<Step>)
    ensures Inv(Run(INITIAL, steps))
  {
    RunFromKeepsInv(INITIAL, steps);
  }

  // ---------- runs put together ----------

  lemma {:induction false} RunAppend(s: State, first: seq<Step>, second: seq<Step>)
    ensures Run(s, first + second) == Run(Run(s, first), second)
  {
    if second == [] {
      assert first + second == first;
    } else {
      assert (first + second)[..|first + second| - 1] == first + second[..|second| - 1];
      RunAppend(s, first, second[..|second| - 1]);
    }
  }

  lemma RunTwo(s: State, a: Step, b: Step)
    ensures Run(s, [a, b]) == Next(Next(s, a), b)
  {
    assert [a, b][..1] == [a] && [a][..0] == [];
    assert Run(s, [a]) == Next(s, a);
  }

  lemma RunThree(s: State, a: Step, b: Step, c: Step)
    ensures Run(s, [a, b, c]) == Next(Next(Next(s, a), b), c)
  {
    assert [a, b, c][..2] == [a, b];
    RunTwo(s, a, b);
  }

  // ---------- waiting for addresses ----------

  /** An address event for one of our interfaces, of the kind that is waited for. */
  predicate OurAddress(step: Step) {
    match step
    case GotIp(desc) => IsOurNetif(TAG, desc)
    case GotIpv6(desc, kind) => IsOurNetif(TAG, desc) && kind == LINK_LOCAL
    case _ => false
  }

  datatype Family = IPV4 | IPV6

  /** The address families of the events that are waited for, in order. */
  function Families(steps: seq<Step>): seq<Family> {
    if steps == [] then []
    else
      var last := steps[|steps| - 1];
      Families(steps[..|steps| - 1]) + if OurAddress(last) then [if last.GotIp? then IPV4 else IPV6] else []
  }

  predicate IsEvent(step: Step) {
    step.GotIp? || step.GotIpv6? || step.StaConnected? || step.StaDisconnected?
  }

  /** The steps of the event loop among all steps. */
  function Events(steps: seq<Step>): seq<Step> {
    if steps == [] then []
    else Events(steps[..|steps| - 1]) + if IsEvent(steps[|steps| - 1]) then [steps[|steps| - 1]] else []
  }

  /** The steps of the waiting task and of the event callbacks; no other call begins. */
  predicate DuringConnect(step: Step) {
    IsEvent(step) || step == Take || step == Return
  }

  /** The state in which start() leaves the task: a fresh semaphore, nothing taken. */
  predicate JustStarted(s: State) {
    && SemaphoreInv(s) && !s.fault && s.phase == Waiting && s.taken == 0 && s.delivered == 0
    && s.callbacks.onGotIp > 0 && s.callbacks.onGotIpv6 > 0
  }

  lemma WaitingStep(s: State, step: Step)
    requires !s.fault && s.semaphore.Some? && DuringConnect(step)
    requires s.callbacks.onGotIp > 0 && s.callbacks.onGotIpv6 > 0
    ensures var r := Next(s, step);
            && !r.fault && r.semaphore.Some?
            && r.delivered == s.delivered + (if OurAddress(step) then 1 else 0)
            && r.callbacks == s.callbacks && r.netif == s.netif && r.activeInterfaces == s.activeInterfaces
            && (IsEvent(step) ==> r.taken == s.taken && r.phase == s.phase)
  {
  }

  lemma {:induction false} WaitingRun(s: State, steps: seq<Step>)
    requires JustStarted(s) && forall k :: 0 <= k < |steps| ==> DuringConnect(steps[k])
    ensures var r := Run(s, steps);
            && SemaphoreInv(r) && !r.fault && r.semaphore.Some?
            && r.delivered == |Families(steps)|
            && r.callbacks == s.callbacks && r.netif == s.netif && r.activeInterfaces == s.activeInterfaces
            && ((forall k :: 0 <= k < |steps| ==> IsEvent(steps[k])) ==> r.taken == 0 && r.phase == Waiting)
  {
    if steps != [] {
      var before := steps[..|steps| - 1];
      WaitingRun(s, before);
      NextKeepsSemaphore(Run(s, before), steps[|steps| - 1]);
      WaitingStep(Run(s, before), steps[|steps| - 1]);
    }
  }

  /** The waiting task can neither take nor return. */
  predicate Blocked(s: State) {
    Next(s, Take) == s && Next(s, Return) == s
  }

  /** It is blocked exactly when it has already taken every event delivered, and those are too few. */
  lemma BlockedExactly(s: State)
    requires SemaphoreInv(s) && !s.fault && s.phase == Waiting
    ensures Blocked(s) <==> s.delivered == s.taken < AddressesAwaited(s)
  {
  }

  /**
   * connect returns only after as many events as addresses are awaited, and a task that has seen those is never
   * blocked.
   */
  lemma ConnectWaitsForAll(s: State, steps: seq<Step>)
    requires JustStarted(s) && forall k :: 0 <= k < |steps| ==> DuringConnect(steps[k])
    ensures var r, n := Run(s, steps), |Families(steps)|;
            && (r.phase == Idle ==> n >= AddressesAwaited(s))
            && (r.phase == Waiting && n >= AddressesAwaited(s) ==> !Blocked(r))
  {
    WaitingRun(s, steps);
    if Run(s, steps).phase == Waiting {
      BlockedExactly(Run(s, steps));
    }
  }

  // ---------- which addresses end the wait ----------

  /** The waiting task and the event loop, interleaved, with the arrivals delivered in order, not necessarily all. */
  predicate Interleaves(steps: seq<Step>, arrivals: seq<Step>) {
    (forall k :: 0 <= k < |steps| ==> DuringConnect(steps[k])) && Events(steps) <= arrivals
  }

  /** An address of each family has arrived. */
  predicate BothFamilies(f: seq<Family>) {
    IPV4 in f && IPV6 in f
  }

  /** Two families are both of them exactly when they differ. */
  lemma TwoFamilies(f: seq<Family>)
    requires |f| >= 2
    ensures BothFamilies(f[..2]) <==> f[0] != f[1]
  {
    assert f[..2] == [f[0], f[1]];
  }

  /** In some interleaving connect returns while one family has not arrived. */
  ghost predicate CanReturnEarly(s: State, arrivals: seq<Step>) {
    exists steps :: Interleaves(steps, arrivals) && Run(s, steps).phase == Idle && !BothFamilies(Families(steps))
  }

  lemma {:induction false} FamiliesOfEvents(steps: seq<Step>)
    ensures Families(Events(steps)) == Families(steps)
  {
    if steps != [] {
      var before, last := steps[..|steps| - 1], steps[|steps| - 1];
      FamiliesOfEvents(before);
      if IsEvent(last) {
        assert Events(steps)[..|Events(steps)| - 1] == Events(before);
      } else {
        assert Events(steps) == Events(before);
      }
    }
  }

  lemma {:induction false} FamiliesPrefix(steps: seq<Step>, n: nat)
    requires n <= |steps|
    ensures Families(steps[..n]) <= Families(steps)
  {
    if n == |steps| {
      assert steps[..n] == steps;
    } else {
      assert steps[..|steps| - 1][..n] == steps[..n];
      FamiliesPrefix(steps[..|steps| - 1], n);
    }
  }

  /** The arrivals up to the second address. */
  lemma {:induction false} UntilTwo(arrivals: seq<Step>) returns (n: nat)
    requires |Families(arrivals)| >= 2
    ensures n <= |arrivals| && |Families(arrivals[..n])| == 2
  {
    var before := arrivals[..|arrivals| - 1];
    if |Families(before)| >= 2 {
      n := UntilTwo(before);
      assert before[..n] == arrivals[..n];
    } else {
      n := |arrivals|;
      assert arrivals[..n] == arrivals;
    }
  }

  lemma {:induction false} EventsOfEvents(steps: seq<Step>)
    requires forall k :: 0 <= k < |steps| ==> IsEvent(steps[k])
    ensures Events(steps) == steps
  {
    if steps != [] {
      EventsOfEvents(steps[..|steps| - 1]);
    }
  }

  lemma TasksAddNothing(steps: seq<Step>, task: seq<Step>)
    requires task == [] || task == [Take] || task == [Take, Take] || task == [Take, Take, Return]
    ensures Events(steps + task) == Events(steps) && Families(steps + task) == Families(steps)
    decreases |task|
  {
    if task == [] {
      assert steps + task == steps;
    } else {
      assert (steps + task)[..|steps + task| - 1] == steps + task[..|task| - 1];
      TasksAddNothing(steps, task[..|task| - 1]);
    }
  }

  lemma TwoTakesReturn(s: State)
    requires SemaphoreInv(s) && !s.fault && s.phase == Waiting && AddressesAwaited(s) == 2
    requires s.taken == 0 && s.delivered == 2
    ensures Run(s, [Take, Take, Return]).phase == Idle
  {
    RunThree(s, Take, Take, Return);
    var s1 := Next(s, Take);
    assert s1.taken == 1 && s1.semaphore.value.count == 1;
  }

  /** The event loop first, up to the second address, and then the task: connect returns with the first two. */
  lemma ReturnsAfterTwo(s: State, arrivals: seq<Step>) returns (steps: seq<Step>)
    requires JustStarted(s) && AddressesAwaited(s) == 2 && |Families(arrivals)| >= 2
    requires forall k :: 0 <= k < |arrivals| ==> IsEvent(arrivals[k])
    ensures Interleaves(steps, arrivals) && Run(s, steps).phase == Idle
    ensures Families(steps) == Families(arrivals)[..2]
  {
    var n := UntilTwo(arrivals);
    var events := arrivals[..n];
    steps := events + [Take, Take, Return];
    FamiliesPrefix(arrivals, n);
    EventsOfEvents(events);
    TasksAddNothing(events, [Take, Take, Return]);
    WaitingRun(s, events);
    RunAppend(s, events, [Take, Take, Return]);
    TwoTakesReturn(Run(s, events));
  }

  /** Every return has seen the first two addresses. */
  lemma ReturnHasSeenTwo(s: State, arrivals: seq<Step>, steps: seq<Step>)
    requires JustStarted(s) && AddressesAwaited(s) == 2
    requires Interleaves(steps, arrivals) && Run(s, steps).phase == Idle
    ensures |Families(arrivals)| >= 2 && Families(arrivals)[..2] <= Families(steps)
  {
    ConnectWaitsForAll(s, steps);
    FamiliesOfEvents(steps);
    assert arrivals[..|Events(steps)|] == Events(steps);
    FamiliesPrefix(arrivals, |Events(steps)|);
  }

  /**
   * With one interface, the wait is sized for an address of each family but does not tell them apart: whatever
   * arrives, connect can return before both families have exactly when the first two addresses are of the same one.
   */
  lemma ReturnsEarlyExactly(s: State, arrivals: seq<Step>)
    requires JustStarted(s) && s.activeInterfaces == 1
    requires forall k :: 0 <= k < |arrivals| ==> IsEvent(arrivals[k])
    ensures var f := Families(arrivals);
            CanReturnEarly(s, arrivals) <==> |f| >= 2 && f[0] == f[1]
  {
    var f := Families(arrivals);
    if CanReturnEarly(s, arrivals) {
      var steps :|
        Interleaves(steps, arrivals) && Run(s, steps).phase == Idle && !BothFamilies(Families(steps));
      ReturnHasSeenTwo(s, arrivals, steps);
      TwoFamilies(f);
    }
    if |f| >= 2 && f[0] == f[1] {
      var steps := ReturnsAfterTwo(s, arrivals);
      TwoFamilies(f);
    }
  }

  lemma FamiliesOfTwo(a: Step, b: Step)
    requires OurAddress(a) && OurAddress(b)
    ensures Families([a, b]) == [if a.GotIp? then IPV4 else IPV6, if b.GotIp? then IPV4 else IPV6]
  {
    assert [a, b][..1] == [a] && [a][..0] == [];
    assert Families([a]) == [if a.GotIp? then IPV4 else IPV6];
  }

  /** So two IPv4 events can end the wait without an IPv6 address, and two IPv6 events without an IPv4 address. */
  lemma ReturnsWithOneFamily(s: State, desc: string)
    requires JustStarted(s) && s.activeInterfaces == 1 && TAG <= desc
    ensures CanReturnEarly(s, [GotIp(desc), GotIp(desc)])
    ensures CanReturnEarly(s, [GotIpv6(desc, LINK_LOCAL), GotIpv6(desc, LINK_LOCAL)])
  {
    IsOurNetifExact(TAG, desc);
    FamiliesOfTwo(GotIp(desc), GotIp(desc));
    FamiliesOfTwo(GotIpv6(desc, LINK_LOCAL), GotIpv6(desc, LINK_LOCAL));
    ReturnsEarlyExactly(s, [GotIp(desc), GotIp(desc)]);
    ReturnsEarlyExactly(s, [GotIpv6(desc, LINK_LOCAL), GotIpv6(desc, LINK_LOCAL)]);
  }

  // ---------- the lifecycle over runs ----------

  predicate HandleNull(s: State) {
    s.phase == Starting || s.phase == Stopping
  }

  lemma FaultStep(s: State, step: Step)
    requires Inv(s)
    ensures Next(s, step).fault <==> s.fault || (HandleNull(s) && OurAddress(step))
  {
  }

  /** Step k finds the callbacks registered and the semaphore NULL, and is an address event of ours. */
  predicate NullGiveAt(steps: seq<Step>, k: nat)
    requires k < |steps|
  {
    HandleNull(Run(INITIAL, steps[..k])) && OurAddress(steps[k])
  }

  lemma {:induction false} FaultHasCause(steps: seq<Step>) returns (k: nat)
    requires Run(INITIAL, steps).fault
    ensures k < |steps| && NullGiveAt(steps, k)
  {
    var n := |steps| - 1;
    var before := steps[..n];
    RunKeepsInv(before);
    FaultStep(Run(INITIAL, before), steps[n]);
    if Run(INITIAL, before).fault {
      k := FaultHasCause(before);
      assert before[..k] == steps[..k];
    } else {
      k := n;
    }
  }

  lemma {:induction false} CauseFaults(steps: seq<Step>, k: nat)
    requires k < |steps| && NullGiveAt(steps, k)
    ensures Run(INITIAL, steps).fault
  {
    var n := |steps| - 1;
    var before := steps[..n];
    RunKeepsInv(before);
    FaultStep(Run(INITIAL, before), steps[n]);
    if k < n {
      assert before[..k] == steps[..k];
      CauseFaults(before, k);
    }
  }

  /**
   * A run gives to a NULL semaphore exactly when an address event of ours arrives while start() has registered the
   * callbacks and not yet created the semaphore, or stop() has not yet unregistered them after its deletion.
   */
  lemma FaultExactly(steps: seq<Step>)
    ensures Run(INITIAL, steps).fault <==> exists k :: 0 <= k < |steps| && NullGiveAt(steps, k)
  {
    if Run(INITIAL, steps).fault {
      var k := FaultHasCause(steps);
    }
    if k :| 0 <= k < |steps| && NullGiveAt(steps, k) {
      CauseFaults(steps, k);
    }
  }

  lemma AddressFaults(s: State, call: Step, address: Step)
    requires Inv(s) && HandleNull(Next(s, call)) && OurAddress(address)
    ensures Run(s, [call, address]).fault
  {
    RunTwo(s, call, address);
    NextKeepsInv(s, call);
    FaultStep(Next(s, call), address);
  }

  /** Both windows are open to any address of ours: before the creation of the semaphore, and after its deletion. */
  lemma AddressesInTheWindows(s: State, address: Step)
    requires Inv(s) && !s.fault && s.phase == Idle && OurAddress(address)
    ensures s.semaphore.None? ==> Run(s, [CallConnect, address]).fault
    ensures s.semaphore.Some? ==> Run(s, [CallDisconnect, address]).fault
  {
    AddressFaults(s, if s.semaphore.None? then CallConnect else CallDisconnect, address);
  }

  lemma EarlyAddressFaults(desc: string)
    requires TAG <= desc
    ensures Run(INITIAL, [CallConnect, GotIp(desc)]).fault
  {
    IsOurNetifExact(TAG, desc);
    AddressesInTheWindows(INITIAL, GotIp(desc));
  }

  // ---------- the wifi_connect flag ----------

  /** The station events reach their callbacks from registration to unregistration. */
  predicate Listening(s: State) {
    !s.fault && !(s.phase == Idle && s.semaphore.None?)
  }

  /** Step k is a station event that reaches its callback. */
  predicate Heard(steps: seq<Step>, k: nat)
    requires k < |steps|
  {
    (steps[k].StaConnected? || steps[k].StaDisconnected?) && Listening(Run(INITIAL, steps[..k]))
  }

  /** Step k is the last of them. */
  predicate HeardLast(steps: seq<Step>, k: nat)
    requires k < |steps|
  {
    Heard(steps, k) && forall i :: k < i < |steps| ==> !Heard(steps, i)
  }

  lemma FlagStep(s: State, step: Step)
    requires Inv(s)
    ensures Next(s, step).wifiConnect ==
            if (step.StaConnected? || step.StaDisconnected?) && Listening(s) then step.StaConnected? else s.wifiConnect
  {
  }

  lemma HeardSnoc(before: seq<Step>, step: Step, k: nat)
    requires k < |before|
    ensures Heard(before + [step], k) == Heard(before, k)
  {
    assert (before + [step])[..k] == before[..k];
  }

  /** In every run the flag is set exactly when the last station event that reached its callback was a connection. */
  lemma {:induction false} FlagExactly(steps: seq<Step>)
    ensures Run(INITIAL, steps).wifiConnect <==>
            exists k :: 0 <= k < |steps| && steps[k].StaConnected? && HeardLast(steps, k)
  {
    if steps != [] {
      var n := |steps| - 1;
      var before := steps[..n];
      assert steps == before + [steps[n]];
      FlagExactly(before);
      RunKeepsInv(before);
      FlagStep(Run(INITIAL, before), steps[n]);
      forall k | 0 <= k < n ensures Heard(steps, k) == Heard(before, k) {
        HeardSnoc(before, steps[n], k);
      }
      if Heard(steps, n) {
        assert HeardLast(steps, n);
      } else {
        assert forall k :: 0 <= k < n ==> HeardLast(steps, k) == HeardLast(before, k);
      }
    }
  }

  /** What station events, all of which reach their callbacks, leave of a flag. */
  function LastStation(flag: bool, steps: seq<Step>): bool {
    if steps == [] then flag
    else
      var last := steps[|steps| - 1];
      if last.StaConnected? then true
      else if last.StaDisconnected? then false
      else LastStation(flag, steps[..|steps| - 1])
  }

  /** A connection with no disconnection after it, or no disconnection at all after a flag that was set. */
  lemma {:induction false} LastStationExactly(flag: bool, steps: seq<Step>)
    ensures LastStation(flag, steps) <==>
            (flag && StaDisconnected !in steps) ||
            exists k :: 0 <= k < |steps| && steps[k] == StaConnected && StaDisconnected !in steps[k..]
  {
    if steps != [] {
      var n := |steps| - 1;
      var before := steps[..n];
      LastStationExactly(flag, before);
      assert steps == before + [steps[n]];
      forall k | 0 <= k < n ensures steps[k..] == before[k..] + [steps[n]] {
      }
      assert steps[n..] == [steps[n]];
    }
  }

  lemma {:induction false} LastStationOfEvents(flag: bool, steps: seq<Step>)
    ensures LastStation(flag, Events(steps)) == LastStation(flag, steps)
  {
    if steps != [] {
      var before, last := steps[..|steps| - 1], steps[|steps| - 1];
      LastStationOfEvents(flag, before);
      if IsEvent(last) {
        assert Events(steps)[..|Events(steps)| - 1] == Events(before);
      } else {
        assert Events(steps) == Events(before);
      }
    }
  }

  /** A connect hears them all. */
  lemma {:induction false} FlagDuringConnect(s: State, steps: seq<Step>)
    requires Inv(s) && JustStarted(s) && forall k :: 0 <= k < |steps| ==> DuringConnect(steps[k])
    ensures Run(s, steps).wifiConnect == LastStation(s.wifiConnect, Events(steps))
  {
    LastStationOfEvents(s.wifiConnect, steps);
    if steps != [] {
      var before := steps[..|steps| - 1];
      FlagDuringConnect(s, before);
      LastStationOfEvents(s.wifiConnect, before);
      WaitingRun(s, before);
      RunFromKeepsInv(s, before);
      FlagStep(Run(s, before), steps[|steps| - 1]);
    }
  }

  // ---------- calls ----------

  /** Between calls, the interface count is one exactly when the semaphore exists, and zero otherwise. */
  lemma CallBoundaries(steps: seq<Step>)
    requires Run(INITIAL, steps).phase == Idle
    ensures var s := Run(INITIAL, steps);
            && s.activeInterfaces == (if s.semaphore.Some? then 1 else 0)
            && s.stopRegistered == s.activeInterfaces
            && (s.semaphore.Some? ==> Next(s, CallConnect) == s)
            && (s.semaphore.None? ==> Next(s, CallDisconnect) == s)
  {
    RunKeepsInv(steps);
  }

  lemma ConnectStarts(s: State)
    requires Inv(s) && !s.fault && s.phase == Idle && s.semaphore.None?
    ensures var r := Run(s, [CallConnect, CreateSemaphore]);
            Inv(r) && JustStarted(r) && r.callbacks == Register(s.callbacks) && r.netif
            && r.wifiConnect == s.wifiConnect
  {
    RunTwo(s, CallConnect, CreateSemaphore);
    NextKeepsInv(s, CallConnect);
    NextKeepsInv(Next(s, CallConnect), CreateSemaphore);
  }

  lemma DisconnectStops(s: State, base: Callbacks, wifiNotInit: bool)
    requires Inv(s) && !s.fault && s.phase == Idle && s.semaphore.Some?
    requires s.callbacks == Register(base) && s.netif
    ensures var r := Run(s, [CallDisconnect, Stop(wifiNotInit)]);
            && Inv(r) && !r.fault && r.phase == Idle && r.semaphore.None?
            && r.callbacks == base.(defaults := base.defaults + if wifiNotInit then 1 else 0)
            && r.netif == wifiNotInit && r.wifiConnect == s.wifiConnect
  {
    RunTwo(s, CallDisconnect, Stop(wifiNotInit));
    NextKeepsInv(s, CallDisconnect);
    NextKeepsInv(Next(s, CallDisconnect), Stop(wifiNotInit));
  }

  /**
   * A connect that returned, undone by a disconnect, restores count, semaphore, registrations and shutdown hook,
   * unless the driver reports that Wi-Fi was not initialised: then its own handlers and the interface stay behind.
   * The wifi_connect flag stays as the last event left it.
   */
  lemma DisconnectUndoesConnect(s: State, during: seq<Step>, wifiNotInit: bool)
    requires Inv(s) && !s.fault && s.phase == Idle && s.semaphore.None?
    requires forall k :: 0 <= k < |during| ==> DuringConnect(during[k])
    requires Run(s, [CallConnect, CreateSemaphore] + during).phase == Idle
    ensures var r := Run(s, [CallConnect, CreateSemaphore] + during + [CallDisconnect, Stop(wifiNotInit)]);
            && !r.fault && r.phase == Idle && r.semaphore.None?
            && r.activeInterfaces == s.activeInterfaces && r.stopRegistered == s.stopRegistered
            && r.callbacks == s.callbacks.(defaults := s.callbacks.defaults + if wifiNotInit then 1 else 0)
            && r.netif == wifiNotInit
            && r.wifiConnect == Run(s, [CallConnect, CreateSemaphore] + during).wifiConnect
  {
    var started := Run(s, [CallConnect, CreateSemaphore]);
    ConnectStarts(s);
    RunAppend(s, [CallConnect, CreateSemaphore], during);
    WaitingRun(started, during);
    RunFromKeepsInv(started, during);
    RunAppend(s, [CallConnect, CreateSemaphore] + during, [CallDisconnect, Stop(wifiNotInit)]);
    DisconnectStops(Run(started, during), s.callbacks, wifiNotInit);
  }
}
