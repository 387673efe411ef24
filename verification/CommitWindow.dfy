/** The commit window manager and the emergency manager. Times are seconds, read from the clock as `now`. */
module CommitWindow {
  import opened ConfigTypes
  import opened Drift

  datatype WindowState =
    | Idle
    | Open(openedAt: real, deadline: real)
    | Expired(openedAt: real, expiredAt: real)

  datatype WindowConfig = WindowConfig(baseSeconds: nat, sensitivity: real, emergencySeconds: nat)

  /** The manager's state and transitions as values. */
  datatype Window = Window(config: WindowConfig, state: WindowState, emergency: bool) {

    function OpenFor(magnitude: real, now: real): Window {
      var seconds := if emergency then config.emergencySeconds
                     else WindowSeconds(config.baseSeconds, config.sensitivity, magnitude);
      var openedAt := if state.Open? then state.openedAt else now;
      this.(state := Open(openedAt, now + seconds as real))
    }

    function CheckExpired(now: real): (Window, bool) {
      match state
      case Open(openedAt, deadline) =>
        if now >= deadline && !emergency then (this.(state := Expired(openedAt, deadline)), true) else (this, false)
      case Expired(_, _) => (this, true)
      case Idle => (this, false)
    }

    function Close(): Window {
      this.(state := Idle)
    }

    function Extend(seconds: nat): Window {
      if state.Open? then this.(state := Open(state.openedAt, state.deadline + seconds as real)) else this
    }

    function EnterEmergency(now: real): Window {
      var w := this.(emergency := true);
      if state.Open? then w.(state := Open(now, now + config.emergencySeconds as real)) else w
    }

    function ExitEmergency(): Window {
      this.(emergency := false)
    }
  }

  class CommitWindowManager {
    var config: WindowConfig
    var state: WindowState
    var emergency: bool

    ghost function Value(): Window
      reads this
    {
      Window(config, state, emergency)
    }

    constructor (config: WindowConfig)
      ensures Value() == Window(config, Idle, false)
    {
      this.config, state, emergency := config, Idle, false;
    }

    method UpdateConfig(baseSeconds: nat, sensitivity: real, emergencySeconds: nat)
      modifies this`config
      ensures Value() == old(Value()).(config := WindowConfig(baseSeconds, sensitivity, emergencySeconds))
    {
      config := WindowConfig(baseSeconds, sensitivity, emergencySeconds);
    }

    /** Opens a window, or moves the deadline of the one that is open. */
    method OpenFor(magnitude: real, now: real)
      modifies this`state
      ensures Value() == old(Value()).OpenFor(magnitude, now)
    {
      var seconds;
      if emergency {
        seconds := config.emergencySeconds;
      } else {
        seconds := WindowSeconds(config.baseSeconds, config.sensitivity, magnitude);
      }
      var deadline := now + seconds as real;
      match state {
        case Open(openedAt, _) => state := Open(openedAt, deadline);
        case _ => state := Open(now, deadline);
      }
    }

    method CheckExpired(now: real) returns (expired: bool)
      modifies this`state
      ensures (Value(), expired) == old(Value()).CheckExpired(now)
      ensures expired <==> state.Expired?
    {
      match state {
        case Open(openedAt, deadline) =>
          if now >= deadline {
            if emergency {
              expired := false;
            } else {
              state := Expired(openedAt, deadline);
              expired := true;
            }
          } else {
            expired := false;
          }
        case Expired(_, _) =>
          expired := true;
        case Idle =>
          expired := false;
      }
    }

    method Commit()
      modifies this`state
      ensures Value() == old(Value()).(state := Idle)
    {
      state := Idle;
    }

    method Rollback()
      modifies this`state
      ensures Value() == old(Value()).(state := Idle)
    {
      state := Idle;
    }

    /** A5: refused while consumers are active. */
    method RollbackWithCheck(activeConsumers: nat) returns (ok: bool)
      modifies this`state
      ensures ok <==> activeConsumers == 0
      ensures Value() == if ok then old(Value()).(state := Idle) else old(Value())
    {
      if activeConsumers > 0 {
        return false;
      }
      state := Idle;
      ok := true;
    }

    method Extend(seconds: nat)
      modifies this`state
      ensures Value() == old(Value()).Extend(seconds)
    {
      if state.Open? {
        state := Open(state.openedAt, state.deadline + seconds as real);
      }
    }

    method EnterEmergency(now: real)
      modifies this`state, this`emergency
      ensures Value() == old(Value()).EnterEmergency(now)
    {
      emergency := true;
      if state.Open? {
        state := Open(now, now + config.emergencySeconds as real);
      }
    }

    method ExitEmergency()
      modifies this`emergency
      ensures Value() == old(Value()).ExitEmergency()
    {
      emergency := false;
    }
  }

  datatype EmergencyState =
    | Inactive
    | Active(startedAt: real, startedBy: Identity, reason: string, expiresAt: real)

  /** Starting is refused while active (A2). */
  function StartEmergency(s: EmergencyState, windowSeconds: nat, actor: Identity, reason: string, now: real): EmergencyState {
    if s.Active? then s else Active(now, actor, reason, now + windowSeconds as real)
  }

  predicate MayEnd(s: EmergencyState, actor: Identity, force: bool) {
    s.Active? && (force || s.startedBy.principal == actor.principal)
  }

  function EndEmergency(s: EmergencyState, actor: Identity, force: bool): EmergencyState {
    if MayEnd(s, actor, force) then Inactive else s
  }

  class EmergencyManager {
    var state: EmergencyState
    var defaultWindowSeconds: nat

    constructor (defaultWindowSeconds: nat)
      ensures state == Inactive && this.defaultWindowSeconds == defaultWindowSeconds
    {
      state := Inactive;
      this.defaultWindowSeconds := defaultWindowSeconds;
    }

    method Start(actor: Identity, reason: string, now: real) returns (ok: bool)
      modifies this`state
      ensures ok <==> old(state).Inactive?
      ensures state == StartEmergency(old(state), defaultWindowSeconds, actor, reason, now)
      ensures state == if ok then Active(now, actor, reason, now + defaultWindowSeconds as real) else old(state)
    {
      if state.Active? {
        return false;
      }
      state := Active(now, actor, reason, now + defaultWindowSeconds as real);
      ok := true;
    }

    method End(actor: Identity, force: bool) returns (ok: bool)
      modifies this`state
      ensures ok <==> old(state).Active? && (force || old(state).startedBy.principal == actor.principal)
      ensures state == EndEmergency(old(state), actor, force)
      ensures state == if ok then Inactive else old(state)
    {
      match state {
        case Inactive =>
          return false;
        case Active(_, startedBy, _, _) =>
          if !force && startedBy.principal != actor.principal {
            return false;
          }
          state := Inactive;
          return true;
      }
    }

    /** Whether the emergency is past its expiry; it goes on nevertheless. */
    method IsStale(now: real) returns (stale: bool)
      ensures stale <==> Stale(state, now)
    {
      match state {
        case Active(_, _, _, expiresAt) => stale := now >= expiresAt;
        case Inactive => stale := false;
      }
    }
  }

  predicate Stale(s: EmergencyState, now: real) {
    s.Active? && now >= s.expiresAt
  }
}
