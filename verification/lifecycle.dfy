/**
 * The connection handler, handshake events and the synchronizer as interleaved steps.
 * A step is what one task does between two suspensions.
 */
module Lifecycle {
  import opened Wrappers
  import opened StateMachine

  datatype Signal = Connected | Acknowledged | Disconnected

  /** `ConnectionHandler.repeat`: `run` up to its `finally` block, that block, and the pause after it. */
  datatype HandlerAt = WaitingEnabled | Opening | WaitingOpen | Serving | Closing | Sleeping | Stopped

  /**
   * `StateSynchronizer.repeat`. `Waiting` is `await event.wait()`: `woken` once the event was set,
   * also if it is cleared again before the task continues.
   */
  datatype SyncAt = Configuring | Waiting(signal: Signal, woken: bool) | Checking | Loading

  /** `checked` is the controller known when the check passed, `since` the handshakes received while loading. */
  datatype System = System(
    state: State,
    handler: HandlerAt,
    sync: SyncAt,
    checked: Option<Device>,
    since: seq<Device>)

  const START := System(INITIAL, WaitingEnabled, Configuring, None, [])

  datatype Step =
    // connection handler
    | Enables
    | Opens
    | Serves(kind: string, address: string)
    | Fails                                   // any exception in `run`, including the loss of the connection
    | Closes
    | Cancelled                               // the task ends while `close` is awaited
    | Resumes
    | Ends
    // incoming events and API calls
    | Handshake(controller: Device)
    | Updates
    | Enabling(enabled: bool)
    // synchronizer
    | Configures(enabled: bool)
    | Continues                               // a woken wait returns
    | Checks
    | Synchronizes
    | SyncFails                               // any other exception; a reset of the connection is requested

  predicate IsSet(s: State, signal: Signal) {
    match signal
    case Connected => s.connected
    case Acknowledged => s.acknowledged
    case Disconnected => s.disconnected
  }

  function Wait(s: State, signal: Signal): SyncAt {
    Waiting(signal, IsSet(s, signal))
  }

  /** Events that are set now wake the synchronizer. */
  function Wake(sync: SyncAt, s: State): SyncAt {
    if sync.Waiting? && IsSet(s, sync.signal) then sync.(woken := true) else sync
  }

  predicate Enabled(x: System, step: Step) {
    match step
    case Enables => x.handler.WaitingEnabled?
    case Opens => x.handler.Opening?
    case Serves(_, _) => x.handler.WaitingOpen?
    case Fails => x.handler in {WaitingEnabled, Opening, WaitingOpen, Serving}
    case Closes => x.handler.Closing?
    case Cancelled => x.handler.Closing?
    case Resumes => x.handler.Sleeping?
    case Ends => x.handler.Sleeping?
    case Handshake(_) => true
    case Updates => true
    case Enabling(_) => true
    case Configures(_) => x.sync.Configuring?
    case Continues => x.sync.Waiting? && x.sync.woken
    case Checks => x.sync.Checking?
    case Synchronizes => x.sync.Loading?
    case SyncFails => !(x.sync.Waiting? && x.sync.signal.Disconnected?)
  }

  /** Handshakes, updates and API calls come at any time; the synchronizer may fail unless it waits for a disconnect. */
  lemma AnythingMayCome(x: System, controller: Device, enabled: bool)
    ensures Enabled(x, Handshake(controller)) && Enabled(x, Updates) && Enabled(x, Enabling(enabled))
    ensures !Enabled(x, SyncFails) <==> x.sync in {Waiting(Disconnected, true), Waiting(Disconnected, false)}
  {
  }

  function SetState(service: Service, x: System, call: Call): System {
    var s := Apply(service, x.state, call);
    x.(state := s, sync := Wake(x.sync, s))
  }

  function Next(service: Service, x: System, step: Step): System {
    match step
    case Enables => x.(handler := Opening)
    case Opens => x.(handler := WaitingOpen)
    case Serves(kind, address) => SetState(service, x, SetConnected(kind, address)).(handler := Serving)
    case Fails => x.(handler := Closing)
    case Closes => SetState(service, x, SetDisconnected).(handler := Sleeping)
    case Cancelled => x.(handler := Stopped)
    case Resumes => x.(handler := WaitingEnabled)
    case Ends => x.(handler := Stopped)
    case Handshake(c) =>
      SetState(service, x, SetAcknowledged(c)).(since := if x.sync.Loading? then x.since + [c] else x.since)
    case Updates => SetState(service, x, SetUpdating)
    case Enabling(enabled) => SetState(service, x, SetEnabled(enabled))
    case Configures(enabled) =>
      var s := Apply(service, x.state, SetEnabled(enabled));
      x.(state := s, sync := Wait(s, Connected))
    case Continues =>
      if !x.sync.Waiting? then x
      else
        x.(sync := match x.sync.signal
                   case Connected => Wait(x.state, Acknowledged)
                   case Acknowledged => Checking
                   case Disconnected => Configuring)
    case Checks =>
      if HasIncompatibleError(x.state) then x.(sync := Wait(x.state, Disconnected))
      else x.(sync := Loading, checked := x.state.controller, since := [])
    case Synchronizes =>
      var s := Apply(service, x.state, SetSynchronized);
      x.(state := s, sync := Wait(s, Disconnected))
    case SyncFails => x.(sync := Wait(x.state, Disconnected))
  }

  // ---- Where the tasks can go ---------------------------------------------------

  predicate IsHandlerStep(step: Step) {
    step.Enables? || step.Opens? || step.Serves? || step.Fails? || step.Closes? || step.Cancelled? || step.Resumes?
    || step.Ends?
  }

  predicate IsSyncStep(step: Step) {
    step.Configures? || step.Continues? || step.Checks? || step.Synchronizes? || step.SyncFails?
  }

  predicate MovesHandler(service: Service, x: System, step: Step, to: HandlerAt) {
    Enabled(x, step) && IsHandlerStep(step) && Next(service, x, step).handler == to
  }

  predicate MovesSync(service: Service, x: System, step: Step, to: SyncAt) {
    Enabled(x, step) && IsSyncStep(step) && Next(service, x, step).sync == to
  }

  /** The connection is opened, served and closed in turn, and each failure before that leads to closing it. */
  lemma HandlerMovesExactly(service: Service, x: System, to: HandlerAt)
    ensures (exists step :: MovesHandler(service, x, step, to)) <==>
            (x.handler, to) in {(WaitingEnabled, Opening), (Opening, WaitingOpen), (WaitingOpen, Serving),
                                (WaitingEnabled, Closing), (Opening, Closing), (WaitingOpen, Closing),
                                (Serving, Closing), (Closing, Sleeping), (Closing, Stopped),
                                (Sleeping, WaitingEnabled), (Sleeping, Stopped)}
  {
    hide Apply;
    var step := match to
      case Opening => Enables
      case WaitingOpen => Opens
      case Serving => Serves("", "")
      case Closing => Fails
      case Sleeping => Closes
      case Stopped => if x.handler == Closing then Cancelled else Ends
      case WaitingEnabled => Resumes;
    assert (x.handler, to) in {(WaitingEnabled, Opening), (Opening, WaitingOpen), (WaitingOpen, Serving),
                               (WaitingEnabled, Closing), (Opening, Closing), (WaitingOpen, Closing),
                               (Serving, Closing), (Closing, Sleeping), (Closing, Stopped),
                               (Sleeping, WaitingEnabled), (Sleeping, Stopped)} ==>
        MovesHandler(service, x, step, to);
  }

  /** Waits for a connection and then a handshake, checks and loads; whatever fails, it waits for the disconnect. */
  predicate MayFollow(x: System, to: SyncAt) {
    var disconnects := to == Waiting(Disconnected, x.state.disconnected);
    match x.sync
    case Configuring => to == Waiting(Connected, x.state.connected) || disconnects
    case Waiting(Connected, woken) => (woken && to == Waiting(Acknowledged, x.state.acknowledged)) || disconnects
    case Waiting(Acknowledged, woken) => (woken && to == Checking) || disconnects
    case Waiting(Disconnected, woken) => woken && to == Configuring
    case Checking => disconnects || (to == Loading && !HasIncompatibleError(x.state))
    case Loading => disconnects
  }

  /** Where the synchronizer can go next. */
  lemma SyncMovesExactly(service: Service, x: System, to: SyncAt)
    ensures (exists step :: MovesSync(service, x, step, to)) <==> MayFollow(x, to)
  {
    hide HasIncompatibleError;
    forall step | MovesSync(service, x, step, to) ensures MayFollow(x, to) {
      match step
      case Configures(_) =>
      case Continues =>
      case Checks =>
      case Synchronizes =>
      case SyncFails =>
      case _ =>
    }
    if MayFollow(x, to) {
      var step := match x.sync
        case Configuring => if to.Waiting? && to.signal == Connected then Configures(x.state.enabled) else SyncFails
        case Waiting(Disconnected, _) => Continues
        case Waiting(_, _) => if to.Waiting? && to.signal == Disconnected then SyncFails else Continues
        case Checking => if to == Loading then Checks else SyncFails
        case Loading => SyncFails;
      assert MovesSync(service, x, step, to);
    }
  }

  /** Steps of others wake the synchronizer exactly if the event it waits for is set now. */
  lemma OthersWake(service: Service, x: System, step: Step)
    requires !IsSyncStep(step)
    ensures var y := Next(service, x, step);
            y.sync == if step.Serves? || step.Closes? || step.Handshake? || step.Updates? || step.Enabling? then
                        match x.sync
                        case Waiting(Connected, woken) => Waiting(Connected, woken || y.state.connected)
                        case Waiting(Acknowledged, woken) => Waiting(Acknowledged, woken || y.state.acknowledged)
                        case Waiting(Disconnected, woken) => Waiting(Disconnected, woken || y.state.disconnected)
                        case _ => x.sync
                      else x.sync
  {
    hide Apply;
  }

  function Run(service: Service, steps: seq<Step>): System {
    if steps == [] then START else Next(service, Run(service, steps[..|steps| - 1]), steps[|steps| - 1])
  }

  ghost predicate IsRun(service: Service, steps: seq<Step>) {
    steps == [] ||
    (IsRun(service, steps[..|steps| - 1]) && Enabled(Run(service, steps[..|steps| - 1]), steps[|steps| - 1]))
  }

  // ---- Connections alternate ----------------------------------------------------

  /** The handler is past `set_disconnected` whenever it may connect. */
  predicate HandlerAgrees(x: System) {
    && (x.handler == Serving ==> x.state.connected)
    && (x.handler in {WaitingEnabled, Opening, WaitingOpen, Sleeping} ==> !x.state.connected)
  }

  // ---- What the synchronizer may rely on ------------------------------------------

  /** The controller whose handshake counts when loading ends. */
  function LatestController(x: System): Option<Device> {
    if x.since == [] then x.checked else Some(x.since[|x.since| - 1])
  }

  predicate SyncAgrees(service: Service, x: System) {
    && (x.state.synchronized ==> SyncedAt(x))
    && (x.sync.Loading? ==>
          && (x.state.acknowledged ==> x.state.controller == LatestController(x))
          && (x.checked.Some? ==> Compatible(service, x.checked.value)))
  }

  /** Where the synchronizer is while the machine is synchronized. */
  predicate SyncedAt(x: System) {
    if x.state.disconnected then
      x.sync in {Configuring, Waiting(Connected, false), Waiting(Disconnected, true)}
    else x.sync == Waiting(Disconnected, false)
  }

  predicate Inv(service: Service, x: System) {
    Consistent(service, x.state) && HandlerAgrees(x) && SyncAgrees(service, x)
  }

  lemma NextKeepsConsistent(service: Service, x: System, step: Step)
    requires Consistent(service, x.state)
    ensures Consistent(service, Next(service, x, step).state)
  {
    hide Consistent, Apply;
    match step
    case Serves(kind, address) => ApplyKeepsConsistent(service, x.state, SetConnected(kind, address));
    case Closes => ApplyKeepsConsistent(service, x.state, SetDisconnected);
    case Handshake(c) => ApplyKeepsConsistent(service, x.state, SetAcknowledged(c));
    case Updates => ApplyKeepsConsistent(service, x.state, SetUpdating);
    case Enabling(enabled) => ApplyKeepsConsistent(service, x.state, SetEnabled(enabled));
    case Configures(enabled) => ApplyKeepsConsistent(service, x.state, SetEnabled(enabled));
    case Synchronizes => ApplyKeepsConsistent(service, x.state, SetSynchronized);
    case _ =>
  }

  lemma NextKeepsHandlerAgrees(service: Service, x: System, step: Step)
    requires HandlerAgrees(x) && Enabled(x, step)
    ensures HandlerAgrees(Next(service, x, step))
  {
    hide FirmwareErrorOf, IdentityErrorOf, HasIncompatibleError;
  }

  lemma NextKeepsSyncAgrees(service: Service, x: System, step: Step)
    requires Inv(service, x) && Enabled(x, step)
    ensures SyncAgrees(service, Next(service, x, step))
  {
  }

  lemma NextKeepsInv(service: Service, x: System, step: Step)
    requires Inv(service, x) && Enabled(x, step)
    ensures Inv(service, Next(service, x, step))
  {
    hide Consistent, HandlerAgrees, SyncAgrees, Next, Enabled;
    NextKeepsConsistent(service, x, step);
    NextKeepsHandlerAgrees(service, x, step);
    NextKeepsSyncAgrees(service, x, step);
  }

  lemma {:induction false} RunKeepsInv(service: Service, steps: seq<Step>)
    requires IsRun(service, steps)
    ensures Inv(service, Run(service, steps))
  {
    if steps != [] {
      var before := steps[..|steps| - 1];
      RunKeepsInv(service, before);
      NextKeepsInv(service, Run(service, before), steps[|steps| - 1]);
    }
  }

  lemma {:induction false} PrefixIsRun(service: Service, steps: seq<Step>, n: nat)
    requires IsRun(service, steps) && n <= |steps|
    ensures IsRun(service, steps[..n])
    decreases |steps|
  {
    if n < |steps| {
      var before := steps[..|steps| - 1];
      PrefixIsRun(service, before, n);
      assert before[..n] == steps[..n];
    } else {
      assert steps[..n] == steps;
    }
  }

  lemma StepAt(service: Service, steps: seq<Step>, n: nat)
    requires IsRun(service, steps) && n < |steps|
    ensures IsRun(service, steps[..n]) && Enabled(Run(service, steps[..n]), steps[n])
    ensures Run(service, steps[..n + 1]) == Next(service, Run(service, steps[..n]), steps[n])
  {
    PrefixIsRun(service, steps, n + 1);
    assert steps[..n + 1][..n] == steps[..n];
  }

  lemma NextStaysConnected(service: Service, x: System, step: Step)
    requires !step.Closes? && (x.state.connected || step.Serves?)
    ensures Next(service, x, step).state.connected
  {
  }

  lemma {:induction false} StaysConnected(service: Service, steps: seq<Step>, i: nat, n: nat)
    requires IsRun(service, steps) && i < n <= |steps| && steps[i].Serves?
    requires forall k :: i < k < n ==> !steps[k].Closes?
    ensures Run(service, steps[..n]).state.connected
    decreases n
  {
    hide Run, IsRun, Next, Enabled;
    StepAt(service, steps, n - 1);
    if i < n - 1 {
      StaysConnected(service, steps, i, n - 1);
    }
    NextStaysConnected(service, Run(service, steps[..n - 1]), steps[n - 1]);
  }

  /** In every interleaving, `set_disconnected` is called between any two calls of `set_connected`. */
  lemma ConnectionsAlternate(service: Service, steps: seq<Step>, i: nat, j: nat)
    requires IsRun(service, steps) && i < j < |steps| && steps[i].Serves? && steps[j].Serves?
    ensures exists k :: i < k < j && steps[k].Closes?
  {
    if forall k :: i < k < j ==> !steps[k].Closes? {
      StaysConnected(service, steps, i, j);
      StepAt(service, steps, j);
      RunKeepsInv(service, steps[..j]);
      assert false;
    }
  }

  // ---- Synchronizing with an incompatible controller --------------------------------

  /** If `set_synchronized` succeeds now, the last handshake received while loading was compatible. */
  predicate SafeStep(service: Service, x: System, step: Step) {
    step.Synchronizes? && x.state.acknowledged && x.since != [] ==> Compatible(service, x.since[|x.since| - 1])
  }

  ghost predicate SafeRun(service: Service, steps: seq<Step>) {
    forall n :: 0 <= n < |steps| ==> SafeStep(service, Run(service, steps[..n]), steps[n])
  }

  predicate SafelySynchronized(x: System) {
    x.state.synchronized ==> !HasIncompatibleError(x.state)
  }

  lemma NextKeepsSafe(service: Service, x: System, step: Step)
    requires Inv(service, x) && Enabled(x, step) && SafelySynchronized(x)
    ensures SafelySynchronized(Next(service, x, step)) <==> SafeStep(service, x, step)
  {
    NextKeepsInv(service, x, step);
  }

  lemma {:induction false} SafeRunIsSafe(service: Service, steps: seq<Step>)
    requires IsRun(service, steps) && SafeRun(service, steps)
    ensures SafelySynchronized(Run(service, steps))
  {
    if steps != [] {
      var n := |steps| - 1;
      var before := steps[..n];
      forall k | 0 <= k < n ensures SafeStep(service, Run(service, before[..k]), before[k]) {
        assert before[..k] == steps[..k];
      }
      SafeRunIsSafe(service, before);
      RunKeepsInv(service, before);
      NextKeepsSafe(service, Run(service, before), steps[n]);
    }
  }

  lemma PrefixIsSafe(service: Service, steps: seq<Step>, n: nat)
    requires SafeRun(service, steps) && n <= |steps|
    ensures SafeRun(service, steps[..n])
  {
    forall k | 0 <= k < n ensures SafeStep(service, Run(service, steps[..n][..k]), steps[..n][k]) {
      assert steps[..n][..k] == steps[..k];
    }
  }

  /**
   * A run is never synchronized with an INCOMPATIBLE error exactly when, at each successful `set_synchronized`,
   * the last handshake since the compatibility check is from a compatible controller.
   */
  lemma SafeExactly(service: Service, steps: seq<Step>)
    requires IsRun(service, steps)
    ensures (forall n :: 0 <= n <= |steps| ==> SafelySynchronized(Run(service, steps[..n]))) <==>
            SafeRun(service, steps)
  {
    if SafeRun(service, steps) {
      forall n | 0 <= n <= |steps| ensures SafelySynchronized(Run(service, steps[..n])) {
        PrefixIsRun(service, steps, n);
        PrefixIsSafe(service, steps, n);
        SafeRunIsSafe(service, steps[..n]);
      }
    } else {
      var n :| 0 <= n < |steps| && !SafeStep(service, Run(service, steps[..n]), steps[n]);
      StepAt(service, steps, n);
      RunKeepsInv(service, steps[..n]);
      if SafelySynchronized(Run(service, steps[..n])) {
        NextKeepsSafe(service, Run(service, steps[..n]), steps[n]);
      }
    }
  }

  /** If the check saw a controller and all handshakes since describe that controller, synchronizing is safe. */
  lemma SameControllerIsSafe(service: Service, steps: seq<Step>, c: Device)
    requires IsRun(service, steps) && Run(service, steps).sync.Loading?
    requires Run(service, steps).checked == Some(c)
    requires forall k :: 0 <= k < |Run(service, steps).since| ==> Run(service, steps).since[k] == c
    ensures SafeStep(service, Run(service, steps), Synchronizes)
  {
    RunKeepsInv(service, steps);
  }

  lemma Extend(service: Service, steps: seq<Step>, step: Step)
    requires IsRun(service, steps) && Enabled(Run(service, steps), step)
    ensures IsRun(service, steps + [step]) && Run(service, steps + [step]) == Next(service, Run(service, steps), step)
  {
    assert (steps + [step])[..|steps|] == steps;
  }

  /**
   * The check alone does not suffice: a connection lost and made again while the handshake prompt is still waiting
   * passes it without a controller, and one incompatible controller can then be synchronized.
   */
  lemma CheckCanBePassedWithoutController(service: Service, bad: Device) returns (steps: seq<Step>)
    requires !Compatible(service, bad)
    ensures IsRun(service, steps)
    ensures Run(service, steps).since == [bad]
    ensures !SafelySynchronized(Run(service, steps))
  {
    hide Run, IsRun;
    steps := Reconnected(service);
    Extend(service, steps, Checks);
    steps := steps + [Checks];
    Extend(service, steps, Handshake(bad));
    steps := steps + [Handshake(bad)];
    Extend(service, steps, Synchronizes);
    steps := steps + [Synchronizes];
  }

  lemma NothingDone(service: Service)
    ensures IsRun(service, []) && Run(service, []) == START
  {
  }

  lemma FirstAcknowledged(service: Service) returns (steps: seq<Step>)
    ensures IsRun(service, steps)
    ensures var x := Run(service, steps); x.sync.Checking? && x.handler.Serving?
  {
    hide Run, IsRun;
    NothingDone(service);
    steps := [];
    Extend(service, steps, Configures(true));
    steps := steps + [Configures(true)];
    Extend(service, steps, Enables);
    steps := steps + [Enables];
    Extend(service, steps, Opens);
    steps := steps + [Opens];
    Extend(service, steps, Serves("TCP", ""));
    steps := steps + [Serves("TCP", "")];
    Extend(service, steps, Continues);
    steps := steps + [Continues];
    Extend(service, steps, Handshake(service.device));
    steps := steps + [Handshake(service.device)];
    Extend(service, steps, Continues);
    steps := steps + [Continues];
  }

  lemma Reconnected(service: Service) returns (steps: seq<Step>)
    ensures IsRun(service, steps)
    ensures var x := Run(service, steps);
            x.sync.Checking? && !x.state.synchronized && x.state.controller.None? && !HasIncompatibleError(x.state)
  {
    hide Run, IsRun;
    steps := FirstAcknowledged(service);
    Extend(service, steps, Fails);
    steps := steps + [Fails];
    Extend(service, steps, Closes);
    steps := steps + [Closes];
    Extend(service, steps, Resumes);
    steps := steps + [Resumes];
    Extend(service, steps, Enables);
    steps := steps + [Enables];
    Extend(service, steps, Opens);
    steps := steps + [Opens];
    Extend(service, steps, Serves("TCP", ""));
    steps := steps + [Serves("TCP", "")];
  }
}
