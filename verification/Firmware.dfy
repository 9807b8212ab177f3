/**
 * The control task of app_main.c, its MQTT event handlers and the Wi-Fi callbacks as interleaved steps.
 * The log records, in order, what the tasks did; the laws are about every run.
 */
module Firmware {
  import opened Mqtt
  import opened Text
  import S = SharedPointer

  /** What a step leaves in the log. */
  datatype Entry =
    | SawWifi                                      // the control task read wifi_connect true
    | Begun(byHandler: bool)                       // an mqtt_app_start call allocated its jwt block
    | Token(byHandler: bool, op: S.Op)             // it tried to allocate oBuf, or freed it
    | Init(byHandler: bool, result: StartResult)   // it set the handle, or failed before
    | Ended(byHandler: bool)                       // it freed through jwt and returned
    | CycleBegan                                   // the control task began a cycle
    | ReadState(s: ServiceState)                   // the control task read the service state
    | Publish(handle: Handle)                      // the control task published
    | Handled(client: Handle, event: Event)        // a handler set the service state for an event of that client
    | SawWifiUp                                    // a handler of a disconnection read wifi_connect true
    | SawWifiDown                                  // or false, and restarted the device

  /** Where the control task is. */
  datatype Control =
    | WaitWifi | CallStart | InStart | Signing | CallInit | EndStart | TopOfCycle | CheckState | AboutToPublish | Delay

  datatype State = State(
    wifi: bool,
    service: ServiceState,
    control: Control,
    mqttc: Handle,
    clients: nat,
    checking: nat,    // handlers that have set DISCONNECTED and not yet read wifi_connect
    calling: nat,     // handlers that have read it true and not yet begun mqtt_app_start
    starting: nat,    // handlers inside mqtt_app_start that have not come to oBuf
    signing: nat,     // that have tried to allocate oBuf and not freed it
    ready: nat,       // that have freed it and not set the handle
    ending: nat,      // that have set the handle and not freed their jwt block
    restarted: bool)

  const INITIAL := State(false, MQTT_SERV_ERROR, WaitWifi, 0, 0, 0, 0, 0, 0, 0, 0, false)

  datatype Step =
    | WifiUp
    | WifiDown
    | Arrives(client: Handle, event: Event)
    | HandlerReadsWifi
    | HandlerBegins
    | HandlerFindsNoKey
    | HandlerSigns(mallocOk: bool)
    | HandlerSigned
    | HandlerInits(result: StartResult)
    | HandlerEnds
    | ControlSteps(keyParses: bool, mallocOk: bool, result: StartResult)

  /** A state, and the entry its step leaves in the log. */
  datatype Outcome = Outcome(state: State, entry: Option<Entry>)

  /** The firmware sets the URI before its first start, so no start ends for want of one. */
  function StartClient(s: State, byHandler: bool, result: StartResult): Outcome
    requires !result.NoUri?
  {
    Outcome(s.(mqttc := NextHandle(s.mqttc, result, s.clients + 1),
               clients := s.clients + if result.Started? then 1 else 0),
            Some(Init(byHandler, result)))
  }

  function Attempt(mallocOk: bool): S.Op {
    if mallocOk then S.Allocate else S.AllocateFails
  }

  function ControlNext(s: State, keyParses: bool, mallocOk: bool, result: StartResult): Outcome {
    match s.control
    case WaitWifi => if s.wifi then Outcome(s.(control := CallStart), Some(SawWifi)) else Outcome(s, None)
    case CallStart => Outcome(s.(control := InStart), Some(Begun(false)))
    case InStart =>
      if keyParses then Outcome(s.(control := Signing), Some(Token(false, Attempt(mallocOk))))
      else StartClient(s.(control := EndStart), false, TokenFailed)
    case Signing => Outcome(s.(control := CallInit), Some(Token(false, S.Release)))
    case CallInit =>
      if result.NoUri? then Outcome(s, None) else StartClient(s.(control := EndStart), false, result)
    case EndStart => Outcome(s.(control := TopOfCycle), Some(Ended(false)))
    case TopOfCycle => Outcome(s.(control := CheckState), Some(CycleBegan))
    case CheckState =>
      Outcome(s.(control := if s.service == MQTT_SERV_CONNECTED then AboutToPublish else Delay),
              Some(ReadState(s.service)))
    case AboutToPublish => Outcome(s.(control := Delay), Some(Publish(s.mqttc)))
    case Delay => Outcome(s.(control := TopOfCycle), None)
  }

  /** Only clients that were initialised raise events; a step that is not enabled changes nothing. */
  function Next(s: State, step: Step): Outcome {
    if s.restarted then Outcome(s, None) else
    match step
    case WifiUp => Outcome(s.(wifi := true), None)
    case WifiDown => Outcome(s.(wifi := false), None)
    case Arrives(client, event) =>
      if !(1 <= client <= s.clients) then Outcome(s, None)
      else Outcome(s.(service := NextService(s.service, event),
                      checking := s.checking + if event.Disconnected? then 1 else 0),
                   Some(Handled(client, event)))
    case HandlerReadsWifi =>
      if s.checking == 0 then Outcome(s, None)
      else if s.wifi then Outcome(s.(checking := s.checking - 1, calling := s.calling + 1), Some(SawWifiUp))
      else Outcome(s.(checking := s.checking - 1, restarted := true), Some(SawWifiDown))
    case HandlerBegins =>
      if s.calling == 0 then Outcome(s, None)
      else Outcome(s.(calling := s.calling - 1, starting := s.starting + 1), Some(Begun(true)))
    case HandlerFindsNoKey =>
      if s.starting == 0 then Outcome(s, None)
      else StartClient(s.(starting := s.starting - 1, ending := s.ending + 1), true, TokenFailed)
    case HandlerSigns(mallocOk) =>
      if s.starting == 0 then Outcome(s, None)
      else Outcome(s.(starting := s.starting - 1, signing := s.signing + 1), Some(Token(true, Attempt(mallocOk))))
    case HandlerSigned =>
      if s.signing == 0 then Outcome(s, None)
      else Outcome(s.(signing := s.signing - 1, ready := s.ready + 1), Some(Token(true, S.Release)))
    case HandlerInits(result) =>
      if s.ready == 0 || result.NoUri? then Outcome(s, None)
      else StartClient(s.(ready := s.ready - 1, ending := s.ending + 1), true, result)
    case HandlerEnds =>
      if s.ending == 0 then Outcome(s, None)
      else Outcome(s.(ending := s.ending - 1), Some(Ended(true)))
    case ControlSteps(keyParses, mallocOk, result) => ControlNext(s, keyParses, mallocOk, result)
  }

  /** The state after a run from power-on. */
  function Run(steps: seq<Step>): State {
    if steps == [] then INITIAL else Next(Run(steps[..|steps| - 1]), steps[|steps| - 1]).state
  }

  /** The log of a run. */
  function Log(steps: seq<Step>): seq<Entry> {
    if steps == [] then []
    else
      var before, entry := steps[..|steps| - 1], Next(Run(steps[..|steps| - 1]), steps[|steps| - 1]).entry;
      Log(before) + if entry.Some? then [entry.value] else []
  }

  // ---------- readings of the log ----------

  /** The service state after the events in the log: the fold of NextService over them. */
  function Fold(log: seq<Entry>): ServiceState {
    if log == [] then MQTT_SERV_ERROR
    else
      var before, last := Fold(log[..|log| - 1]), log[|log| - 1];
      if last.Handled? then NextService(before, last.event) else before
  }

  datatype Kind = ClientStarted | ByControl | ByHandler | WifiWasUp | WifiWasDown | Disconnection

  predicate Is(e: Entry, kind: Kind) {
    match kind
    case ClientStarted => e.Init? && e.result.Started?
    case ByControl => e.Init? && !e.byHandler
    case ByHandler => e.Init? && e.byHandler
    case WifiWasUp => e.SawWifiUp?
    case WifiWasDown => e.SawWifiDown?
    case Disconnection => e.Handled? && e.event.Disconnected?
  }

  function Count(log: seq<Entry>, kind: Kind): nat {
    if log == [] then 0 else Count(log[..|log| - 1], kind) + if Is(log[|log| - 1], kind) then 1 else 0
  }

  /** The result of the latest client initialisation reached: the newest client, or NULL if that one failed. */
  function LatestHandle(log: seq<Entry>): Handle {
    if log == [] then 0
    else
      var last, before := log[|log| - 1], log[..|log| - 1];
      if last.Init? && last.result.Started? then Count(log, ClientStarted)
      else if last.Init? && last.result.InitFailed? then 0
      else LatestHandle(before)
  }

  // ---------- reconnect accounting ----------

  datatype Readings = Readings(
    fold: ServiceState, started: nat, latest: Handle, byControl: nat, byHandler: nat, up: nat, down: nat, lost: nat)

  function ReadingsOf(log: seq<Entry>): Readings {
    Readings(Fold(log), Count(log, ClientStarted), LatestHandle(log), Count(log, ByControl), Count(log, ByHandler),
             Count(log, WifiWasUp), Count(log, WifiWasDown), Count(log, Disconnection))
  }

  function One(e: Entry, kind: Kind): nat {
    if Is(e, kind) then 1 else 0
  }

  function AddEntry(r: Readings, e: Entry): Readings {
    Readings(
      if e.Handled? then NextService(r.fold, e.event) else r.fold,
      r.started + One(e, ClientStarted),
      if e.Init? && e.result.Started? then r.started + 1 else if e.Init? && e.result.InitFailed? then 0 else r.latest,
      r.byControl + One(e, ByControl),
      r.byHandler + One(e, ByHandler),
      r.up + One(e, WifiWasUp),
      r.down + One(e, WifiWasDown),
      r.lost + One(e, Disconnection))
  }

  lemma ReadingsSnoc(log: seq<Entry>, e: Entry)
    ensures ReadingsOf(log + [e]) == AddEntry(ReadingsOf(log), e)
  {
    assert (log + [e])[..|log + [e]| - 1] == log;
  }

  predicate BeforeInit(c: Control) {
    c == InStart || c == Signing || c == CallInit
  }

  /**
   * The shared flag is the fold of the events handled; clients and handle are those of the starts reached, one of
   * which is by the control task.
   */
  predicate StateAccounts(s: State, r: Readings) {
    && s.service == r.fold && s.clients == r.started && s.mqttc == r.latest
    && r.byControl == (if s.control == WaitWifi || s.control == CallStart || BeforeInit(s.control) then 0 else 1)
  }

  /** Of the others there is one by a handler per disconnection that found Wi-Fi up, save those still before it. */
  predicate StartAccounts(s: State, r: Readings) {
    && r.up == r.byHandler + s.calling + s.starting + s.signing + s.ready
    && r.lost == r.up + r.down + s.checking
    && r.down == (if s.restarted then 1 else 0)
  }

  predicate Accounts(s: State, r: Readings) {
    StateAccounts(s, r) && StartAccounts(s, r)
  }

  lemma NextKeepsStateAccounts(s: State, step: Step, r: Readings)
    requires StateAccounts(s, r)
    ensures var next := Next(s, step);
            StateAccounts(next.state, if next.entry.Some? then AddEntry(r, next.entry.value) else r)
  {
  }

  lemma NextKeepsStartAccounts(s: State, step: Step, r: Readings)
    requires StartAccounts(s, r)
    ensures var next := Next(s, step);
            StartAccounts(next.state, if next.entry.Some? then AddEntry(r, next.entry.value) else r)
  {
  }

  lemma {:induction false} RunKeepsAccounts(steps: seq<Step>)
    ensures Accounts(Run(steps), ReadingsOf(Log(steps)))
  {
    if steps != [] {
      var before, step := steps[..|steps| - 1], steps[|steps| - 1];
      RunKeepsAccounts(before);
      NextKeepsStateAccounts(Run(before), step, ReadingsOf(Log(before)));
      NextKeepsStartAccounts(Run(before), step, ReadingsOf(Log(before)));
      var entry := Next(Run(before), step).entry;
      if entry.Some? {
        ReadingsSnoc(Log(before), entry.value);
      } else {
        assert Log(steps) == Log(before);
      }
    }
  }

  // ---------- publish safety ----------

  /** An entry of the control task, as against one of a handler. */
  predicate OfControl(e: Entry) {
    match e
    case Begun(byHandler) => !byHandler
    case Token(byHandler, _) => !byHandler
    case Init(byHandler, _) => !byHandler
    case Ended(byHandler) => !byHandler
    case Handled(_, _) => false
    case SawWifiUp => false
    case SawWifiDown => false
    case _ => true
  }

  /** At w the task saw Wi-Fi up, at st its start call returned, at r it read CONNECTED, and nothing since until p. */
  predicate Justifies(log: seq<Entry>, w: nat, st: nat, r: nat, p: nat) {
    && w < st < r < p <= |log|
    && log[w] == SawWifi && log[st] == Ended(false) && log[r] == ReadState(MQTT_SERV_CONNECTED)
    && forall k :: r < k < p ==> !OfControl(log[k])
  }

  lemma LogGrows(steps: seq<Step>)
    requires steps != []
    ensures Log(steps[..|steps| - 1]) <= Log(steps)
  {
  }

  /** The control task's mqtt_app_start has returned. */
  predicate HasStarted(c: Control) {
    c != WaitWifi && c != CallStart && !BeforeInit(c) && c != EndStart
  }

  /** What the control task's stages have behind them. */
  lemma NextOfControl(s: State, step: Step)
    ensures var next, c := Next(s, step), Next(s, step).state.control;
            && (c != WaitWifi ==> s.control != WaitWifi || next.entry == Some(SawWifi))
            && (HasStarted(c) ==> HasStarted(s.control) || (s.control == EndStart && next.entry == Some(Ended(false))))
            && (c == AboutToPublish ==>
                  || (s.control == CheckState && next.entry == Some(ReadState(MQTT_SERV_CONNECTED)))
                  || (s.control == AboutToPublish && (next.entry.Some? ==> !OfControl(next.entry.value))))
            && (next.entry.Some? && next.entry.value.Publish? ==> s.control == AboutToPublish)
  {
  }

  lemma {:induction false} SawWifiBefore(steps: seq<Step>) returns (w: nat)
    requires Run(steps).control != WaitWifi
    ensures w < |Log(steps)| && Log(steps)[w] == SawWifi
  {
    var before := steps[..|steps| - 1];
    LogGrows(steps);
    NextOfControl(Run(before), steps[|steps| - 1]);
    if Run(before).control == WaitWifi {
      w := |Log(steps)| - 1;
    } else {
      w := SawWifiBefore(before);
    }
  }

  lemma {:induction false} StartedBefore(steps: seq<Step>) returns (w: nat, st: nat)
    requires HasStarted(Run(steps).control)
    ensures var log := Log(steps); w < st < |log| && log[w] == SawWifi && log[st] == Ended(false)
  {
    var before := steps[..|steps| - 1];
    LogGrows(steps);
    NextOfControl(Run(before), steps[|steps| - 1]);
    if HasStarted(Run(before).control) {
      w, st := StartedBefore(before);
    } else {
      w := SawWifiBefore(before);
      st := |Log(steps)| - 1;
    }
  }

  lemma {:induction false} ReadBefore(steps: seq<Step>) returns (w: nat, st: nat, r: nat)
    requires Run(steps).control == AboutToPublish
    ensures Justifies(Log(steps), w, st, r, |Log(steps)|)
  {
    var before := steps[..|steps| - 1];
    LogGrows(steps);
    NextOfControl(Run(before), steps[|steps| - 1]);
    if Run(before).control == AboutToPublish {
      w, st, r := ReadBefore(before);
    } else {
      w, st := StartedBefore(before);
      r := |Log(steps)| - 1;
    }
  }

  lemma {:induction false} PublishHasCause(steps: seq<Step>, p: nat) returns (w: nat, st: nat, r: nat)
    requires p < |Log(steps)| && Log(steps)[p].Publish?
    ensures Justifies(Log(steps), w, st, r, p)
  {
    var before := steps[..|steps| - 1];
    LogGrows(steps);
    if p < |Log(before)| {
      w, st, r := PublishHasCause(before, p);
    } else {
      NextOfControl(Run(before), steps[|steps| - 1]);
      w, st, r := ReadBefore(before);
    }
  }

  /** What the entry of a step says of the state before it. */
  lemma EntryIsTrue(s: State, step: Step)
    ensures var entry := Next(s, step).entry;
            entry.Some? ==>
              var e := entry.value;
              && (e.ReadState? ==> e.s == s.service)
              && (e.Publish? ==> e.handle == s.mqttc)
              && (e.Handled? ==> 1 <= e.client <= s.clients)
              && (e.SawWifi? || e.SawWifiUp? ==> s.wifi)
              && (e.SawWifiDown? ==> !s.wifi)
  {
  }

  /** What every recorded read and publish says is true of the log before it. */
  lemma {:induction false} EntriesAreTrue(steps: seq<Step>, k: nat)
    requires k < |Log(steps)|
    ensures var log := Log(steps);
            && (log[k].ReadState? ==> log[k].s == Fold(log[..k]))
            && (log[k].Publish? ==> log[k].handle == LatestHandle(log[..k]))
            && (log[k].Handled? ==> 1 <= log[k].client <= Count(log[..k], ClientStarted))
  {
    var before := steps[..|steps| - 1];
    LogGrows(steps);
    assert Log(steps)[..|Log(before)|] == Log(before);
    if k < |Log(before)| {
      EntriesAreTrue(before, k);
      assert Log(steps)[..k] == Log(before)[..k];
    } else {
      RunKeepsAccounts(before);
      EntryIsTrue(Run(before), steps[|steps| - 1]);
    }
  }

  /**
   * In every run, each publish comes after the task saw Wi-Fi up and its start call returned, and in the same cycle
   * after it read the service state when the events handled so far made it CONNECTED; it uses the latest handle,
   * which PublishesThrough says more about.
   */
  lemma PublishSafety(steps: seq<Step>, p: nat)
    requires p < |Log(steps)| && Log(steps)[p].Publish?
    ensures var log := Log(steps);
            && log[p].handle == LatestHandle(log[..p])
            && exists w: nat, st: nat, r: nat ::
                 Justifies(log, w, st, r, p) && Fold(log[..r]) == MQTT_SERV_CONNECTED
  {
    var w, st, r := PublishHasCause(steps, p);
    EntriesAreTrue(steps, p);
    EntriesAreTrue(steps, r);
    assert Justifies(Log(steps), w, st, r, p) && Fold(Log(steps)[..r]) == MQTT_SERV_CONNECTED;
  }

  predicate SetsState(e: Entry) {
    e.Handled? && (e.event.Connected? || e.event.Disconnected? || e.event.Error?)
  }

  /** The shared state is what the last event that sets it says, and ERROR before any does. */
  lemma {:induction false} FoldExactly(log: seq<Entry>, k: int)
    requires -1 <= k < |log| && (k >= 0 ==> SetsState(log[k])) && forall i :: k < i < |log| ==> !SetsState(log[i])
    ensures Fold(log) ==
            if k >= 0 && log[k].event.Connected? then MQTT_SERV_CONNECTED
            else if k >= 0 && log[k].event.Disconnected? then MQTT_SERV_DISCONNECTED
            else MQTT_SERV_ERROR
  {
    if k < |log| - 1 {
      FoldExactly(log[..|log| - 1], k);
    }
  }

  predicate SetsConnected(e: Entry) {
    e.Handled? && e.event.Connected?
  }

  /**
   * The guarantee is about the read: at the publish the state is CONNECTED exactly when the last event since, if any,
   * says so.
   */
  lemma {:induction false} StateAtPublish(log: seq<Entry>, r: nat, p: nat)
    requires r <= p <= |log| && Fold(log[..r]) == MQTT_SERV_CONNECTED
    ensures Fold(log[..p]) == MQTT_SERV_CONNECTED <==>
            (forall k :: r <= k < p ==> !SetsState(log[k])) ||
            (exists k :: r <= k < p && SetsConnected(log[k]) && forall i :: k < i < p ==> !SetsState(log[i]))
    decreases p - r
  {
    if r < p {
      StateAtPublish(log, r, p - 1);
      assert log[..p] == log[..p - 1] + [log[p - 1]];
      ReadingsSnoc(log[..p - 1], log[p - 1]);
    }
  }

  lemma RunSnoc(steps: seq<Step>, step: Step)
    ensures Run(steps + [step]) == Next(Run(steps), step).state
    ensures var entry := Next(Run(steps), step).entry;
            Log(steps + [step]) == Log(steps) + if entry.Some? then [entry.value] else []
  {
  }

  // ---------- Wi-Fi ----------

  lemma WifiStep(s: State, step: Step)
    requires !Next(s, step).state.restarted
    ensures Next(s, step).state.wifi == if step.WifiUp? then true else if step.WifiDown? then false else s.wifi
    ensures !s.restarted
  {
  }

  lemma RestartStays(s: State, step: Step)
    requires s.restarted
    ensures Next(s, step) == Outcome(s, None)
  {
  }

  predicate LastUp(steps: seq<Step>, k: nat)
    requires k < |steps|
  {
    steps[k].WifiUp? && forall i :: k < i < |steps| ==> !steps[i].WifiDown?
  }

  lemma LastUpSnoc(before: seq<Step>, step: Step)
    ensures var steps := before + [step];
            && LastUp(steps, |before|) == step.WifiUp?
            && forall k :: 0 <= k < |before| ==> LastUp(steps, k) == (LastUp(before, k) && !step.WifiDown?)
  {
    var steps := before + [step];
    forall k | 0 <= k < |before| ensures LastUp(steps, k) == (LastUp(before, k) && !step.WifiDown?) {
      assert steps[|before|] == step && steps[k] == before[k];
      if LastUp(steps, k) {
        assert forall i :: k < i < |before| ==> before[i] == steps[i];
      }
    }
  }

  /** Until the device restarts, the flag is set exactly when the last Wi-Fi step was a connection. */
  lemma {:induction false} WifiIsLast(steps: seq<Step>)
    requires !Run(steps).restarted
    ensures Run(steps).wifi <==> exists k :: 0 <= k < |steps| && LastUp(steps, k)
  {
    if steps != [] {
      var before, step := steps[..|steps| - 1], steps[|steps| - 1];
      WifiStep(Run(before), step);
      WifiIsLast(before);
      LastUpSnoc(before, step);
      assert steps == before + [step];
    }
  }

  // ---------- progress ----------

  /** How many steps the control task takes, at most, until it has begun the next cycle. */
  function Distance(c: Control): nat {
    match c
    case WaitWifi => 7
    case CallStart => 6
    case InStart => 5
    case Signing => 4
    case CallInit => 3
    case EndStart => 2
    case TopOfCycle => 1
    case CheckState => 4
    case AboutToPublish => 3
    case Delay => 2
  }

  /** A turn of the control task. */
  predicate IsTurn(step: Step) {
    step.ControlSteps? && !step.result.NoUri?
  }

  function Turns(steps: seq<Step>): nat {
    if steps == [] then 0 else Turns(steps[1..]) + if IsTurn(steps[0]) then 1 else 0
  }

  lemma TurnMoves(s: State, step: Step)
    requires !s.restarted && (s.control == WaitWifi ==> s.wifi)
    ensures var next := Next(s, step);
            && (IsTurn(step) && s.control == TopOfCycle ==> next.entry == Some(CycleBegan))
            && (IsTurn(step) && s.control != TopOfCycle ==> Distance(next.state.control) < Distance(s.control))
            && (!IsTurn(step) ==> next.state.control == s.control || next.entry == Some(CycleBegan)
                                  || Distance(next.state.control) < Distance(s.control))
            && (s.control != WaitWifi ==> next.state.control != WaitWifi)
  {
  }

  lemma OneMore(steps: seq<Step>, step: Step)
    ensures Run(steps + [step]) == Next(Run(steps), step).state && Log(steps) <= Log(steps + [step])
    ensures Run(steps).restarted ==> Run(steps + [step]).restarted
    ensures Next(Run(steps), step).entry == Some(CycleBegan) ==> Log(steps + [step]) == Log(steps) + [CycleBegan]
  {
    RunSnoc(steps, step);
    if Run(steps).restarted {
      RestartStays(Run(steps), step);
    }
  }

  lemma PrefixOfPrefix(a: seq<Entry>, b: seq<Entry>, c: seq<Entry>)
    requires a <= b <= c
    ensures a <= c
  {
  }

  lemma {:induction false} LogPrefix(steps: seq<Step>, more: seq<Step>)
    ensures Log(steps) <= Log(steps + more) && (Run(steps).restarted ==> Run(steps + more).restarted)
    decreases |more|
  {
    if more == [] {
      assert steps + more == steps;
    } else {
      var s1 := steps + [more[0]];
      assert s1 + more[1..] == steps + more;
      OneMore(steps, more[0]);
      LogPrefix(s1, more[1..]);
      PrefixOfPrefix(Log(steps), Log(s1), Log(steps + more));
    }
  }

  predicate CycleBegins(log: seq<Entry>, from: nat) {
    exists k :: from <= k < |log| && log[k] == CycleBegan
  }

  /**
   * Past the wait for Wi-Fi the task never stops: in any run, whatever the handlers do between, as many of its turns as
   * its distance, at most six, begin another cycle, unless the device restarts.
   */
  lemma {:induction false} CyclesGoOn(steps: seq<Step>, more: seq<Step>)
    requires Run(steps).control != WaitWifi && !Run(steps + more).restarted
    requires Turns(more) >= Distance(Run(steps).control)
    ensures CycleBegins(Log(steps + more), |Log(steps)|)
    decreases |more|
  {
    var s1 := steps + [more[0]];
    assert s1 + more[1..] == steps + more;
    LogPrefix(steps, more);
    OneMore(steps, more[0]);
    LogPrefix(s1, more[1..]);
    TurnMoves(Run(steps), more[0]);
    if Next(Run(steps), more[0]).entry == Some(CycleBegan) {
      assert Log(steps + more)[|Log(steps)|] == CycleBegan;
    } else {
      CyclesGoOn(s1, more[1..]);
    }
  }

  // ---------- which client a publish goes through ----------

  /** A start that set the handle. */
  predicate Reached(e: Entry) {
    e.Init? && e.result.ReachedInit()
  }

  predicate LastReached(log: seq<Entry>, q: nat) {
    q < |log| && Reached(log[q]) && forall k :: q < k < |log| ==> !Reached(log[k])
  }

  /** The start at q made client c. */
  predicate Creates(log: seq<Entry>, q: nat, c: Handle)
    requires q < |log|
  {
    log[q].Init? && log[q].result.Started? && Count(log[..q], ClientStarted) + 1 == c
  }

  lemma {:induction false} LatestIsLast(log: seq<Entry>) returns (q: nat)
    requires Count(log, ClientStarted) > 0
    ensures LastReached(log, q)
    ensures if log[q].result.Started? then Creates(log, q, LatestHandle(log)) else LatestHandle(log) == 0
  {
    var n := |log| - 1;
    if Reached(log[n]) {
      q := n;
    } else {
      q := LatestIsLast(log[..n]);
      assert log[..n][..q] == log[..q];
    }
  }

  /** The client whose event set the state last, if any did. */
  function LastSetter(log: seq<Entry>): Handle {
    if log == [] then 0
    else if SetsState(log[|log| - 1]) then log[|log| - 1].client
    else LastSetter(log[..|log| - 1])
  }

  lemma {:induction false} ConnectedHasSetter(log: seq<Entry>) returns (k: nat)
    requires Fold(log) == MQTT_SERV_CONNECTED
    ensures k < |log| && log[k] == Handled(LastSetter(log), Connected)
  {
    var n := |log| - 1;
    if SetsState(log[n]) {
      k := n;
    } else {
      k := ConnectedHasSetter(log[..n]);
    }
  }

  lemma {:induction false} CountGrows(log: seq<Entry>, n: nat, kind: Kind)
    requires n <= |log|
    ensures Count(log[..n], kind) <= Count(log, kind)
  {
    if n == |log| {
      assert log[..n] == log;
    } else {
      assert log[..|log| - 1][..n] == log[..n];
      CountGrows(log[..|log| - 1], n, kind);
    }
  }

  /** When the task reads CONNECTED, the client whose event made it so exists. */
  lemma SetterExists(steps: seq<Step>, r: nat, p: nat)
    requires r <= p <= |Log(steps)| && Fold(Log(steps)[..r]) == MQTT_SERV_CONNECTED
    ensures 1 <= LastSetter(Log(steps)[..r]) <= Count(Log(steps)[..p], ClientStarted)
  {
    var log := Log(steps);
    var k := ConnectedHasSetter(log[..r]);
    EntriesAreTrue(steps, k);
    assert log[..p][..k] == log[..k];
    CountGrows(log[..p], k, ClientStarted);
  }

  /**
   * A publish goes through NULL exactly when the latest initialisation reached failed, and through the client whose
   * event made the state CONNECTED exactly when no initialisation was reached since that client's own.
   */
  lemma PublishesThrough(steps: seq<Step>, r: nat, p: nat)
    requires r < p < |Log(steps)| && Log(steps)[p].Publish? && Log(steps)[r] == ReadState(MQTT_SERV_CONNECTED)
    ensures var log, c := Log(steps), LastSetter(Log(steps)[..r]);
            && (log[p].handle == 0 <==> exists q: nat :: LastReached(log[..p], q) && log[q].result.InitFailed?)
            && (log[p].handle == c <==> exists q: nat :: LastReached(log[..p], q) && Creates(log, q, c))
  {
    var log := Log(steps);
    EntriesAreTrue(steps, r);
    EntriesAreTrue(steps, p);
    SetterExists(steps, r, p);
    var q := LatestIsLast(log[..p]);
    assert log[..p][..q] == log[..q];
    assert forall u: nat :: LastReached(log[..p], u) ==> u == q;
  }

  // ---------- the shared pointers ----------

  /** The two pointers that every start shares. */
  datatype Global = Jwt | OBuf

  /** What an entry did to one of them. */
  function OpsOf(g: Global, e: Entry): seq<S.Op> {
    match g
    case Jwt => if e.Begun? then [S.Allocate] else if e.Ended? then [S.Release] else []
    case OBuf => if e.Token? then [e.op] else []
  }

  function Ops(g: Global, log: seq<Entry>): seq<S.Op> {
    if log == [] then [] else Ops(g, log[..|log| - 1]) + OpsOf(g, log[|log| - 1])
  }

  /** How many mqtt_app_start calls have begun and not ended. */
  function InProgress(log: seq<Entry>): int {
    S.Open(Ops(Jwt, log))
  }

  function OpenChange(g: Global, e: Entry): int {
    var ops := OpsOf(g, e);
    if ops == [] then 0 else if ops[0] == S.Release then -1 else 1
  }

  /** One operation or none, and what it does to a trace of calls. */
  lemma OpsSnoc(ops: seq<S.Op>, g: Global, e: Entry)
    ensures S.Open(ops + OpsOf(g, e)) == S.Open(ops) + OpenChange(g, e)
    ensures S.Serial(ops + OpsOf(g, e)) <==> S.Serial(ops) && (OpenChange(g, e) == 1 ==> S.Open(ops) == 0)
    ensures S.Calls(ops + OpsOf(g, e)) <==> S.Calls(ops) && (OpsOf(g, e) == [] || S.Open(ops + OpsOf(g, e)) >= 0)
  {
    if OpsOf(g, e) == [] {
      assert ops + OpsOf(g, e) == ops;
    } else {
      var op := OpsOf(g, e)[0];
      assert OpsOf(g, e) == [op] && (ops + [op])[..|ops|] == ops;
      S.SerialSnoc(ops, op);
      S.CallsSnoc(ops, op);
    }
  }

  /** The log of a run after its last step. */
  lemma LastEntry(steps: seq<Step>) returns (before: seq<Step>, entry: Option<Entry>)
    requires steps != []
    ensures before == steps[..|steps| - 1] && entry == Next(Run(before), steps[|steps| - 1]).entry
    ensures entry.None? ==> Log(steps) == Log(before)
    ensures entry.Some? ==> Log(steps) == Log(before) + [entry.value]
    ensures forall g :: entry.Some? ==> Ops(g, Log(steps)) == Ops(g, Log(before)) + OpsOf(g, entry.value)
  {
    before := steps[..|steps| - 1];
    entry := Next(Run(before), steps[|steps| - 1]).entry;
    if entry.Some? {
      assert (Log(before) + [entry.value])[..|Log(before)|] == Log(before);
    }
  }

  /** As many calls are open on jwt as tasks are inside mqtt_app_start, and on oBuf as are signing. */
  predicate Opens(s: State, jwt: int, oBuf: int) {
    && jwt == s.starting + s.signing + s.ready + s.ending +
              (if BeforeInit(s.control) || s.control == EndStart then 1 else 0)
    && oBuf == s.signing + if s.control == Signing then 1 else 0
  }

  lemma NextKeepsOpens(s: State, step: Step, jwt: int, oBuf: int)
    requires Opens(s, jwt, oBuf)
    ensures var next := Next(s, step);
            if next.entry.None? then Opens(next.state, jwt, oBuf)
            else Opens(next.state, jwt + OpenChange(Jwt, next.entry.value), oBuf + OpenChange(OBuf, next.entry.value))
  {
  }

  lemma {:induction false} RunKeepsOpens(steps: seq<Step>)
    ensures Opens(Run(steps), InProgress(Log(steps)), S.Open(Ops(OBuf, Log(steps))))
  {
    if steps != [] {
      var before, entry := LastEntry(steps);
      RunKeepsOpens(before);
      NextKeepsOpens(Run(before), steps[|steps| - 1], InProgress(Log(before)), S.Open(Ops(OBuf, Log(before))));
      if entry.Some? {
        OpsSnoc(Ops(Jwt, Log(before)), Jwt, entry.value);
        OpsSnoc(Ops(OBuf, Log(before)), OBuf, entry.value);
      }
    }
  }

  /** No start begins inside another. */
  predicate NeverNested(log: seq<Entry>) {
    forall k :: 0 <= k < |log| && log[k].Begun? ==> InProgress(log[..k]) == 0
  }

  lemma NestedSnoc(log: seq<Entry>, e: Entry)
    ensures NeverNested(log + [e]) <==> NeverNested(log) && (e.Begun? ==> InProgress(log) == 0)
  {
    var longer := log + [e];
    assert forall k :: 0 <= k <= |log| ==> longer[..k] == log[..k];
    assert log[..|log|] == log;
    if NeverNested(longer) {
      forall k | 0 <= k < |log| && log[k].Begun? ensures InProgress(log[..k]) == 0 {
        assert longer[k].Begun?;
      }
    }
  }

  lemma {:induction false} JwtOpsOfLog(log: seq<Entry>)
    ensures S.AllocateFails !in Ops(Jwt, log)
    ensures S.Serial(Ops(Jwt, log)) <==> NeverNested(log)
  {
    if log != [] {
      var before, e := log[..|log| - 1], log[|log| - 1];
      assert log == before + [e];
      JwtOpsOfLog(before);
      NestedSnoc(before, e);
      OpsSnoc(Ops(Jwt, before), Jwt, e);
    }
  }

  lemma {:induction false} RunMakesCalls(g: Global, steps: seq<Step>)
    ensures S.Calls(Ops(g, Log(steps)))
  {
    if steps != [] {
      var before, entry := LastEntry(steps);
      RunMakesCalls(g, before);
      RunKeepsOpens(steps);
      if entry.Some? {
        OpsSnoc(Ops(g, Log(before)), g, entry.value);
      }
    }
  }

  /**
   * In every run of the firmware the jwt ledger is in order so far, and clean when no start is in progress, exactly
   * when no start began inside another.
   */
  lemma JwtLedger(steps: seq<Step>)
    ensures var log, s := Log(steps), S.Exec(Ops(Jwt, Log(steps)));
            && (S.Tidy(s) <==> NeverNested(log))
            && (InProgress(log) == 0 ==> (S.Clean(s) <==> NeverNested(log)))
  {
    RunMakesCalls(Jwt, steps);
    JwtOpsOfLog(Log(steps));
    S.CleanIffSerial(Ops(Jwt, Log(steps)));
  }

  /** Only a start that has begun, and has not come to oBuf, tries to allocate it. */
  lemma TokenInStart(s: State, step: Step)
    requires Next(s, step).entry.Some? && OpenChange(OBuf, Next(s, step).entry.value) == 1
    ensures s.starting > 0 || s.control == InStart
  {
  }

  /** Where starts are not nested, neither are their uses of oBuf. */
  lemma {:induction false} TokensSerial(steps: seq<Step>)
    requires NeverNested(Log(steps))
    ensures S.Serial(Ops(OBuf, Log(steps)))
  {
    if steps != [] {
      var before, entry := LastEntry(steps);
      if entry.Some? {
        NestedSnoc(Log(before), entry.value);
        TokensSerial(before);
        OpsSnoc(Ops(OBuf, Log(before)), OBuf, entry.value);
        if OpenChange(OBuf, entry.value) == 1 {
          TokenInStart(Run(before), steps[|steps| - 1]);
          RunKeepsOpens(before);
          RunMakesCalls(Jwt, before);
          JwtOpsOfLog(Log(before));
          S.SerialCalls(Ops(Jwt, Log(before)));
        }
      } else {
        TokensSerial(before);
      }
    }
  }

  /**
   * In every run the oBuf ledger is in order exactly when each block was freed before the next allocation was tried;
   * and if no start began inside another it is, and clean when no start is in progress.
   */
  lemma OBufLedger(steps: seq<Step>)
    ensures var log, s := Log(steps), S.Exec(Ops(OBuf, Log(steps)));
            && (S.Tidy(s) <==> S.Paired(Ops(OBuf, log)))
            && (NeverNested(log) ==> S.Tidy(s) && (InProgress(log) == 0 ==> S.Clean(s)))
  {
    S.TidyExactly(Ops(OBuf, Log(steps)));
    if NeverNested(Log(steps)) {
      TokensSerial(steps);
      RunMakesCalls(OBuf, steps);
      RunKeepsOpens(steps);
      S.SerialIsClean(Ops(OBuf, Log(steps)));
    }
  }

  // ---------- runs ----------

  /** The control task takes a step, in which every foreign call succeeds. */
  const GO := ControlSteps(true, true, Started(0))

  /** The control task, undisturbed from power-on with Wi-Fi up, after n steps: the fifth makes a client. */
  function Undisturbed(n: nat): State
    requires n <= 7
  {
    INITIAL.(wifi := true,
             control := [WaitWifi, CallStart, InStart, Signing, CallInit, EndStart, TopOfCycle, CheckState][n],
             mqttc := if n < 5 then 0 else 1, clients := if n < 5 then 0 else 1)
  }

  lemma RunUndisturbed(n: nat) returns (steps: seq<Step>)
    requires n <= 7
    ensures Run(steps) == Undisturbed(n)
  {
    RunSnoc([], WifiUp);
    steps := [] + [WifiUp];
    for k := 0 to n
      invariant Run(steps) == Undisturbed(k)
    {
      RunSnoc(steps, GO);
      steps := steps + [GO];
    }
  }

  lemma NestedStays(log: seq<Entry>, entry: Option<Entry>)
    requires !NeverNested(log)
    ensures !NeverNested(log + if entry.Some? then [entry.value] else [])
  {
    if entry.Some? {
      NestedSnoc(log, entry.value);
    } else {
      assert log + [] == log;
    }
  }

  lemma OneStep(steps: seq<Step>, step: Step) returns (more: seq<Step>)
    ensures Run(more) == Next(Run(steps), step).state
    ensures !NeverNested(Log(steps)) ==> !NeverNested(Log(more))
  {
    RunSnoc(steps, step);
    if !NeverNested(Log(steps)) {
      NestedStays(Log(steps), Next(Run(steps), step).entry);
    }
    more := steps + [step];
  }

  /** From a client's disconnection to its handler about to call mqtt_app_start. */
  lemma RunToHandlerCall(before: seq<Step>) returns (steps: seq<Step>)
    requires Run(before).wifi && Run(before).clients == 1 && !Run(before).restarted && Run(before).checking == 0
    ensures Run(steps) == Run(before).(service := MQTT_SERV_DISCONNECTED, calling := Run(before).calling + 1)
  {
    steps := OneStep(before, Arrives(1, Disconnected));
    steps := OneStep(steps, HandlerReadsWifi);
  }

  /** And inside it, while the control task is inside its own. */
  lemma RunBeginsInside(before: seq<Step>) returns (steps: seq<Step>)
    requires Run(before).calling == 1 && Run(before).control == EndStart && !Run(before).restarted
    ensures Run(steps) == Run(before).(calling := 0, starting := Run(before).starting + 1)
    ensures !NeverNested(Log(steps))
  {
    RunKeepsOpens(before);
    NestedSnoc(Log(before), Begun(true));
    RunSnoc(before, HandlerBegins);
    steps := before + [HandlerBegins];
  }

  /** A handler's start makes its token. */
  lemma RunHandlerSigns(before: seq<Step>) returns (steps: seq<Step>)
    requires Run(before).starting == 1 && Run(before).ready == 0 && !Run(before).restarted
    ensures Run(steps) == Run(before).(starting := 0, ready := 1)
    ensures !NeverNested(Log(before)) ==> !NeverNested(Log(steps))
  {
    steps := OneStep(before, HandlerSigns(true));
    steps := OneStep(steps, HandlerSigned);
  }

  /** And comes to its client, or to a failure. */
  lemma RunHandlerInits(before: seq<Step>, result: StartResult) returns (steps: seq<Step>)
    requires Run(before).starting == 1 && Run(before).ready == Run(before).ending == 0
    requires !Run(before).restarted && !result.NoUri?
    ensures var s := Run(before);
            Run(steps) == StartClient(s.(starting := 0, ending := 1), true, result).state
    ensures !NeverNested(Log(before)) ==> !NeverNested(Log(steps))
  {
    steps := RunHandlerSigns(before);
    steps := OneStep(steps, HandlerInits(result));
  }

  /** Both starts free and return. */
  lemma RunBothEnd(before: seq<Step>) returns (steps: seq<Step>)
    requires !Run(before).restarted && Run(before).control == EndStart && Run(before).ending == 1
    ensures Run(steps) == Run(before).(ending := 0, control := TopOfCycle)
    ensures !NeverNested(Log(before)) ==> !NeverNested(Log(steps))
  {
    steps := OneStep(before, HandlerEnds);
    steps := OneStep(steps, GO);
  }

  /**
   * A run in which a handler starts a client while the control task is still inside its own start call: when both
   * have returned, the jwt ledger is not clean.
   */
  lemma StartsCanOverlap() returns (steps: seq<Step>)
    ensures InProgress(Log(steps)) == 0 && !S.Clean(S.Exec(Ops(Jwt, Log(steps))))
  {
    steps := RunUndisturbed(5);
    steps := RunToHandlerCall(steps);
    steps := RunBeginsInside(steps);
    steps := RunHandlerInits(steps, Started(0));
    steps := RunBothEnd(steps);
    RunKeepsOpens(steps);
    JwtLedger(steps);
  }

  /** Uninterrupted, the steps of a handler of a disconnection do what Mqtt.MqttApp.MqttEventHandler does. */
  lemma HandlerUninterrupted(s: State, client: Handle, mallocOk: bool, result: StartResult)
    requires !s.restarted && 1 <= client <= s.clients && s.checking == s.calling == 0
    requires s.starting == s.signing == s.ready == s.ending == 0 && !result.NoUri?
    ensures var s1 := Next(Next(s, Arrives(client, Disconnected)).state, HandlerReadsWifi).state;
            var s2 := Next(Next(s1, HandlerBegins).state, HandlerSigns(mallocOk)).state;
            var s3 := Next(Next(s2, HandlerSigned).state, HandlerInits(result)).state;
            Next(s3, HandlerEnds).state ==
              if !s.wifi then s.(service := MQTT_SERV_DISCONNECTED, restarted := true)
                  else s.(service := MQTT_SERV_DISCONNECTED,
                          mqttc := NextHandle(s.mqttc, result, s.clients + 1),
                          clients := s.clients + if result.Started? then 1 else 0)
  {
  }

  /** An undisturbed task that has one client comes to read CONNECTED. */
  lemma RunToPublish(before: seq<Step>) returns (steps: seq<Step>)
    requires Run(before).control == CheckState && Run(before).clients >= 1 && !Run(before).restarted
    ensures Run(steps) == Run(before).(service := MQTT_SERV_CONNECTED, control := AboutToPublish)
  {
    steps := OneStep(before, Arrives(1, Connected));
    steps := OneStep(steps, GO);
  }

  /** And to publish, with the handle as it then is. */
  lemma RunPublishes(before: seq<Step>) returns (steps: seq<Step>)
    requires Run(before).control == AboutToPublish && !Run(before).restarted
    ensures Log(steps) == Log(before) + [Publish(Run(before).mqttc)]
  {
    RunSnoc(before, GO);
    steps := before + [GO];
  }

  /** A run in which a publish happens while the state is DISCONNECTED. */
  lemma StalePublish() returns (steps: seq<Step>, p: nat)
    ensures p < |Log(steps)| && Log(steps)[p].Publish?
    ensures Fold(Log(steps)[..p]) == MQTT_SERV_DISCONNECTED
  {
    steps := RunUndisturbed(7);
    steps := RunToPublish(steps);
    steps := RunToHandlerCall(steps);
    RunKeepsAccounts(steps);
    var log := Log(steps);
    p := |log|;
    steps := RunPublishes(steps);
    assert Log(steps)[..p] == log;
  }

  /** A run that publishes through NULL: a reconnection failed, and then the older client came back. */
  lemma NullPublish() returns (steps: seq<Step>, p: nat)
    ensures p < |Log(steps)| && Log(steps)[p] == Publish(0)
  {
    steps := RunUndisturbed(7);
    steps := RunToHandlerCall(steps);
    steps := OneStep(steps, HandlerBegins);
    steps := RunHandlerInits(steps, InitFailed);
    steps := RunToPublish(steps);
    p := |Log(steps)|;
    steps := RunPublishes(steps);
  }
}
