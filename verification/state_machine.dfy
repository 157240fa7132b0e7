/** Events and flags that track device and network status. */
module StateMachine {
  import opened Wrappers

  datatype Firmware = Firmware(firmwareVersion: string, protoVersion: string)

  datatype Device = Device(firmware: Firmware, deviceId: string)

  /** What the service expects of a controller; `skipVersionCheck` is a service setting. */
  datatype Service = Service(device: Device, skipVersionCheck: bool)

  datatype FirmwareError = FirmwareOk | FirmwareIncompatible | FirmwareMismatched

  datatype IdentityError = IdentityOk | IdentityIncompatible | WildcardId

  datatype Status = DISCONNECTED | CONNECTED | ACKNOWLEDGED | SYNCHRONIZED | UPDATING

  datatype State = State(
    enabled: bool, connected: bool, acknowledged: bool, synchronized: bool, disconnected: bool, updating: bool,
    controller: Option<Device>,
    address: Option<string>,
    connectionKind: Option<string>,
    status: Status,
    firmwareError: FirmwareError,
    identityError: IdentityError)

  const INITIAL :=
    State(false, false, false, false, true, false, None, None, None, DISCONNECTED, FirmwareOk, IdentityOk)

  // ---- Classification ---------------------------------------------------------

  function FirmwareErrorOf(service: Service, controller: Device): FirmwareError {
    if service.device.firmware.protoVersion != controller.firmware.protoVersion && !service.skipVersionCheck then
      FirmwareIncompatible
    else if service.device.firmware.firmwareVersion != controller.firmware.firmwareVersion then FirmwareMismatched
    else FirmwareOk
  }

  function IdentityErrorOf(service: Service, controller: Device): IdentityError {
    if service.device.deviceId == "" then WildcardId
    else if service.device.deviceId != controller.deviceId then IdentityIncompatible
    else IdentityOk
  }

  /** The service may be used with this controller. */
  predicate Compatible(service: Service, controller: Device) {
    && (service.device.firmware.protoVersion == controller.firmware.protoVersion || service.skipVersionCheck)
    && (service.device.deviceId == "" || service.device.deviceId == controller.deviceId)
  }

  predicate HasIncompatibleError(s: State) {
    s.firmwareError.FirmwareIncompatible? || s.identityError.IdentityIncompatible?
  }

  // ---- Setters ------------------------------------------------------------------

  datatype Call =
    | SetEnabled(enabled: bool)
    | SetConnected(kind: string, address: string)
    | SetAcknowledged(controller: Device)
    | SetSynchronized
    | SetUpdating
    | SetDisconnected

  /** The state after a setter; `SetSynchronized` raises and changes nothing if not acknowledged. */
  function Apply(service: Service, s: State, call: Call): State {
    match call
    case SetEnabled(enabled) => s.(enabled := enabled)
    case SetConnected(kind, address) =>
      s.(address := Some(address), connectionKind := Some(kind), status := CONNECTED,
         connected := true, acknowledged := false, synchronized := false, disconnected := false)
    case SetAcknowledged(c) =>
      if s.synchronized then s
      else s.(status := ACKNOWLEDGED, controller := Some(c),
              firmwareError := FirmwareErrorOf(service, c), identityError := IdentityErrorOf(service, c),
              acknowledged := true)
    case SetSynchronized =>
      if !s.acknowledged then s else s.(status := SYNCHRONIZED, synchronized := true)
    case SetUpdating => s.(status := UPDATING, updating := true)
    case SetDisconnected =>
      s.(controller := None, address := None, connectionKind := None, status := DISCONNECTED,
         firmwareError := FirmwareOk, identityError := IdentityOk,
         connected := false, acknowledged := false, synchronized := false, updating := false, disconnected := true)
  }

  class Machine {
    const service: Service

    var enabled: bool
    var connected: bool
    var acknowledged: bool
    var synchronized: bool
    var disconnected: bool
    var updating: bool
    var controller: Option<Device>
    var address: Option<string>
    var connectionKind: Option<string>
    var status: Status
    var firmwareError: FirmwareError
    var identityError: IdentityError

    function Now(): State
      reads this
    {
      State(enabled, connected, acknowledged, synchronized, disconnected, updating,
            controller, address, connectionKind, status, firmwareError, identityError)
    }

    constructor (service: Service)
      ensures this.service == service && Now() == INITIAL
    {
      this.service := service;
      enabled, connected, acknowledged, synchronized, updating := false, false, false, false, false;
      disconnected := true;
      controller, address, connectionKind := None, None, None;
      status, firmwareError, identityError := DISCONNECTED, FirmwareOk, IdentityOk;
    }

    /** `false` where an exception about firmware or device id is raised. */
    method CheckCompatible() returns (ok: bool)
      ensures ok <==> !HasIncompatibleError(Now())
    {
      if firmwareError == FirmwareIncompatible {
        return false;
      }
      if identityError == IdentityIncompatible {
        return false;
      }
      return true;
    }

    method SetEnabled(enabled: bool)
      modifies this
      ensures Now() == Apply(service, old(Now()), Call.SetEnabled(enabled))
    {
      this.enabled := enabled;
    }

    method SetConnected(kind: string, address: string)
      modifies this
      ensures Now() == Apply(service, old(Now()), Call.SetConnected(kind, address))
    {
      hide FirmwareErrorOf, IdentityErrorOf;
      this.address := Some(address);
      connectionKind := Some(kind);
      status := CONNECTED;
      connected := true;
      acknowledged := false;
      synchronized := false;
      disconnected := false;
    }

    method SetAcknowledged(controller: Device)
      modifies this
      ensures Now() == Apply(service, old(Now()), Call.SetAcknowledged(controller))
    {
      if synchronized {
        return;
      }
      var wildcardId := service.device.deviceId == "";
      var compatibleFirmware := service.device.firmware.protoVersion == controller.firmware.protoVersion
                                || service.skipVersionCheck;
      var matchingFirmware := service.device.firmware.firmwareVersion == controller.firmware.firmwareVersion;
      var compatibleIdentity := service.device.deviceId == controller.deviceId || wildcardId;

      if !compatibleFirmware {
        firmwareError := FirmwareIncompatible;
      } else if !matchingFirmware {
        firmwareError := FirmwareMismatched;
      } else {
        firmwareError := FirmwareOk;
      }

      if !compatibleIdentity {
        identityError := IdentityIncompatible;
      } else if wildcardId {
        identityError := WildcardId;
      } else {
        identityError := IdentityOk;
      }

      status := ACKNOWLEDGED;
      this.controller := Some(controller);
      acknowledged := true;
    }

    /** `false` where a RuntimeError is raised. */
    method SetSynchronized() returns (ok: bool)
      modifies this
      ensures Now() == Apply(service, old(Now()), Call.SetSynchronized)
      ensures ok == old(acknowledged)
    {
      if !acknowledged {
        return false;
      }
      status := SYNCHRONIZED;
      synchronized := true;
      return true;
    }

    method SetUpdating()
      modifies this
      ensures Now() == Apply(service, old(Now()), Call.SetUpdating)
    {
      status := UPDATING;
      updating := true;
    }

    method SetDisconnected()
      modifies this
      ensures Now() == Apply(service, old(Now()), Call.SetDisconnected)
    {
      hide Apply, Now;
      ClearDescription();
      ClearEvents();
      DisconnectedInTwoParts(service, old(Now()));
    }

    /** The status description without a controller. */
    method ClearDescription()
      modifies this
      ensures Now() == WithoutDescription(old(Now()))
    {
      controller, address, connectionKind := None, None, None;
      status, firmwareError, identityError := DISCONNECTED, FirmwareOk, IdentityOk;
    }

    method ClearEvents()
      modifies this
      ensures Now() == WithoutEvents(old(Now()))
    {
      connected, acknowledged, synchronized, updating := false, false, false, false;
      disconnected := true;
    }
  }

  function WithoutDescription(s: State): State {
    s.(controller := None, address := None, connectionKind := None, status := DISCONNECTED,
       firmwareError := FirmwareOk, identityError := IdentityOk)
  }

  function WithoutEvents(s: State): State {
    s.(connected := false, acknowledged := false, synchronized := false, updating := false, disconnected := true)
  }

  lemma DisconnectedInTwoParts(service: Service, s: State)
    ensures Apply(service, s, SetDisconnected) == WithoutEvents(WithoutDescription(s))
  {
  }

  // ---- What every order of calls keeps ------------------------------------------

  function ApplyAll(service: Service, s: State, calls: seq<Call>): State {
    if calls == [] then s else Apply(service, ApplyAll(service, s, calls[..|calls| - 1]), calls[|calls| - 1])
  }

  /** Each status name says which flags are set. */
  predicate StatusImpliesFlags(s: State) {
    match s.status
    case DISCONNECTED => s.disconnected && !s.connected && !s.acknowledged && !s.synchronized && !s.updating
    case CONNECTED => s.connected && !s.acknowledged && !s.synchronized
    case ACKNOWLEDGED => s.acknowledged && !s.synchronized
    case SYNCHRONIZED => s.acknowledged && s.synchronized
    case UPDATING => s.updating
  }

  /** The error fields classify the controller, if there is one. */
  predicate ErrorsDescribe(service: Service, s: State) {
    match s.controller
    case None => s.firmwareError.FirmwareOk? && s.identityError.IdentityOk?
    case Some(c) =>
      var ours, theirs := service.device.firmware, c.firmware;
      var speaks := ours.protoVersion == theirs.protoVersion || service.skipVersionCheck;
      && (s.firmwareError == FirmwareIncompatible <==> !speaks)
      && (s.firmwareError == FirmwareMismatched <==> speaks && ours.firmwareVersion != theirs.firmwareVersion)
      && (s.identityError == WildcardId <==> service.device.deviceId == "")
      && (s.identityError == IdentityIncompatible <==>
          service.device.deviceId != "" && service.device.deviceId != c.deviceId)
      && (HasIncompatibleError(s) <==> !Compatible(service, c))
  }

  predicate Consistent(service: Service, s: State) {
    && s.connected == !s.disconnected
    && (s.synchronized ==> s.acknowledged)
    && (s.acknowledged ==> s.controller.Some?)
    && (s.connected ==> s.address.Some? && s.connectionKind.Some?)
    && (s.synchronized ==> s.status in {SYNCHRONIZED, UPDATING})
    && StatusImpliesFlags(s)
    && ErrorsDescribe(service, s)
  }

  lemma ApplyKeepsConsistent(service: Service, s: State, call: Call)
    requires Consistent(service, s)
    ensures Consistent(service, Apply(service, s, call))
  {
  }

  /** Consistency holds after every order of calls. */
  lemma {:induction false} AlwaysConsistent(service: Service, calls: seq<Call>)
    ensures Consistent(service, ApplyAll(service, INITIAL, calls))
  {
    if calls != [] {
      AlwaysConsistent(service, calls[..|calls| - 1]);
      ApplyKeepsConsistent(service, ApplyAll(service, INITIAL, calls[..|calls| - 1]), calls[|calls| - 1]);
    }
  }

  /** The check passes exactly for compatible controllers, and whenever no controller is known. */
  lemma CheckMeansCompatible(service: Service, calls: seq<Call>)
    ensures var s := ApplyAll(service, INITIAL, calls);
            !HasIncompatibleError(s) <==> (s.controller.None? || Compatible(service, s.controller.value))
  {
    AlwaysConsistent(service, calls);
  }
}
