/**
 Runs of the agent's commit window: administrators and observers act on the window and on
 the emergency manager, and every ten seconds the auto-rollback timer makes a pass.

 A pass has two steps, because the two managers have a lock each: it looks at the emergency
 manager, lets go of it, and then takes the window's lock and acts. Anything can happen in
 between.
 */
module AutoRollback {
  import opened ConfigTypes
  import opened Drift
  import opened CommitWindow

  /** `armed` says that a pass of the timer has looked and has not acted yet. */
  datatype System = System(
    window: Window, emergency: EmergencyState, emergencySeconds: nat, enforcement: string, armed: bool)

  datatype Action =
    | Opens(magnitude: real)
    | Extends(seconds: nat)
    | Enters
    | Exits
    | Checks
    | Commits
    | RollsBack
    | RollsBackChecked(activeConsumers: nat)
    | Reconfigures(config: WindowConfig)
    | StartsEmergency(actor: Identity, reason: string)
    | EndsEmergency(actor: Identity, force: bool)
    | Looks
    | Acts

  datatype Event = Event(now: real, action: Action)

  /** A pass gives up in observe mode (D5) and when it sees an emergency (A4). */
  predicate Suspended(enforcement: string, emergency: EmergencyState) {
    enforcement == "observe" || emergency.Active?
  }

  predicate Skips(s: System) {
    Suspended(s.enforcement, s.emergency)
  }

  /** The second half of a pass, under the window's lock. */
  function RolledBack(w: Window, now: real): Window {
    var w' := w.CheckExpired(now).0;
    if w'.state.Expired? then w'.Close() else w'
  }

  /** The timer is one task, so it looks again only after the pass before is over. */
  function Looked(s: System): System {
    if s.armed || Skips(s) then s else s.(armed := true)
  }

  function Acted(s: System, now: real): System {
    if s.armed then s.(window := RolledBack(s.window, now), armed := false) else s
  }

  function Apply(s: System, e: Event): System {
    var w := s.window;
    match e.action
    case Opens(magnitude) => s.(window := w.OpenFor(magnitude, e.now))
    case Extends(seconds) => s.(window := w.Extend(seconds))
    case Enters => s.(window := w.EnterEmergency(e.now))
    case Exits => s.(window := w.ExitEmergency())
    case Checks => s.(window := w.CheckExpired(e.now).0)
    case Commits => s.(window := w.Close())
    case RollsBack => s.(window := w.Close())
    case RollsBackChecked(n) => if n == 0 then s.(window := w.Close()) else s
    case Reconfigures(config) => s.(window := w.(config := config))
    case StartsEmergency(actor, reason) =>
      s.(emergency := StartEmergency(s.emergency, s.emergencySeconds, actor, reason, e.now))
    case EndsEmergency(actor, force) => s.(emergency := EndEmergency(s.emergency, actor, force))
    case Looks => Looked(s)
    case Acts => Acted(s, e.now)
  }

  /** The first half of the timer body: whether the pass goes on. */
  method TimerLook(em: EmergencyManager, enforcement: string) returns (goesOn: bool)
    ensures goesOn <==> enforcement != "observe" && em.state.Inactive?
    ensures goesOn <==> !Suspended(enforcement, em.state)
  {
    if enforcement == "observe" {
      return false;
    }
    if em.state.Active? {
      return false;
    }
    goesOn := true;
  }

  /** The second half of the timer body, which does not look at the emergency manager again. */
  method TimerAct(cw: CommitWindowManager, now: real)
    modifies cw`state
    ensures cw.Value() == RolledBack(old(cw.Value()), now)
  {
    var _ := cw.CheckExpired(now);
    if cw.state.Expired? {
      var _ := cw.RollbackWithCheck(0);
    }
  }

  /** The system after the first `k` events. */
  function At(s: System, evs: seq<Event>, k: nat): System
    requires k <= |evs|
  {
    if k == 0 then s else Apply(At(s, evs, k - 1), evs[k - 1])
  }

  ghost predicate Timed(evs: seq<Event>, start: real) {
    forall i, j :: 0 <= i <= j < |evs| ==> start <= evs[i].now <= evs[j].now
  }

  function Initial(config: WindowConfig, emergencySeconds: nat, enforcement: string): System {
    System(Window(config, Idle, false), Inactive, emergencySeconds, enforcement, false)
  }

  /** The deadline of the window that has not been closed, if any. */
  function Deadline(s: System): Option<real> {
    match s.window.state
    case Idle => None
    case Open(_, deadline) => Some(deadline)
    case Expired(_, expiredAt) => Some(expiredAt)
  }

  // ---- Invariants of every run ----

  /** A window opened before now, closes no earlier than it opened, and expires no earlier than its deadline. */
  ghost predicate WindowOk(s: System, now: real) {
    match s.window.state
    case Idle => true
    case Open(openedAt, deadline) => openedAt <= now && openedAt <= deadline
    case Expired(openedAt, expiredAt) => openedAt <= expiredAt <= now
  }

  lemma WindowOkStep(s: System, e: Event, now: real)
    requires WindowOk(s, now) && now <= e.now
    ensures WindowOk(Apply(s, e), e.now)
  {
  }

  function Clock(evs: seq<Event>, start: real, k: nat): real
    requires k <= |evs|
  {
    if k == 0 then start else evs[k - 1].now
  }

  /** In every reachable state the window's times are in order. */
  lemma {:induction false} WindowOkRun(config: WindowConfig, emergencySeconds: nat, enforcement: string,
                                       start: real, evs: seq<Event>, k: nat)
    requires Timed(evs, start) && k <= |evs|
    ensures WindowOk(At(Initial(config, emergencySeconds, enforcement), evs, k), Clock(evs, start, k))
  {
    if k > 0 {
      WindowOkRun(config, emergencySeconds, enforcement, start, evs, k - 1);
      WindowOkStep(At(Initial(config, emergencySeconds, enforcement), evs, k - 1), evs[k - 1], Clock(evs, start, k - 1));
    }
  }

  predicate SetsDeadline(a: Action) {
    a.Opens? || a.Extends? || a.Enters?
  }

  /**
   The deadline an action grants: the drift-dependent window (A3) or the emergency window from
   now on, or the old deadline and some more.
   */
  ghost predicate Grants(s: System, e: Event, d: real) {
    var c := s.window.config;
    match e.action
    case Opens(magnitude) =>
      if s.window.emergency then d == e.now + c.emergencySeconds as real
      else exists w: nat :: IsWindow(w, c.baseSeconds, c.sensitivity, magnitude) && d == e.now + w as real
    case Enters => d == e.now + c.emergencySeconds as real
    case Extends(seconds) => Deadline(s).Some? && d == Deadline(s).value + seconds as real
    case _ => false
  }

  lemma OpenGrants(s: System, e: Event, d: real)
    requires e.action.Opens? && d == s.window.OpenFor(e.action.magnitude, e.now).state.deadline
    ensures Grants(s, e, d)
  {
    var c := s.window.config;
    WindowExactly(c.baseSeconds, c.sensitivity, e.action.magnitude,
                  WindowSeconds(c.baseSeconds, c.sensitivity, e.action.magnitude));
  }

  /** From just after event `j` up to the state before event `k` the window is unclosed, with deadline `d`. */
  ghost predicate Stands(s: System, evs: seq<Event>, j: nat, k: nat, d: real) {
    && j < k <= |evs|
    && forall i :: j < i <= k ==> Deadline(At(s, evs, i)) == Some(d)
  }

  lemma DeadlineChangesOnlyBy(s: System, e: Event)
    requires Deadline(Apply(s, e)).Some?
    ensures Deadline(s) == Deadline(Apply(s, e)) || Grants(s, e, Deadline(Apply(s, e)).value)
  {
    if e.action.Opens? {
      OpenGrants(s, e, Deadline(Apply(s, e)).value);
    }
  }

  // ---- Every action takes effect ----

  /** An open always puts a deadline in force that it grants, and keeps the time an open window was opened at. */
  lemma OpenTakesEffect(s: System, evs: seq<Event>, k: nat)
    requires k < |evs| && evs[k].action.Opens?
    ensures var before, after := At(s, evs, k), At(s, evs, k + 1);
            && after.window.state.Open? && Grants(before, evs[k], after.window.state.deadline)
            && after.window.state.openedAt == (if before.window.state.Open? then before.window.state.openedAt else evs[k].now)
            && after == before.(window := before.window.(state := after.window.state))
  {
    OpenGrants(At(s, evs, k), evs[k], At(s, evs, k + 1).window.state.deadline);
  }

  /** An extension moves the deadline of an open window by exactly its seconds, and does nothing else. */
  lemma ExtendTakesEffect(s: System, evs: seq<Event>, k: nat)
    requires k < |evs| && evs[k].action.Extends?
    ensures var before, after := At(s, evs, k), At(s, evs, k + 1);
            if before.window.state.Open? then
              var Open(openedAt, deadline) := before.window.state;
              after == before.(window := before.window.(state := Open(openedAt, deadline + evs[k].action.seconds as real)))
            else after == before
  {
  }

  /** Entering an emergency sets the flag and starts an open window afresh; leaving it clears the flag. */
  lemma EmergencyFlagTakesEffect(s: System, evs: seq<Event>, k: nat)
    requires k < |evs|
    ensures var before, after := At(s, evs, k), At(s, evs, k + 1);
            var w, now := before.window, evs[k].now;
            && (evs[k].action.Enters? ==>
                  after == before.(window := w.(emergency := true,
                                                state := if w.state.Open?
                                                         then Open(now, now + w.config.emergencySeconds as real)
                                                         else w.state)))
            && (evs[k].action.Exits? ==> after == before.(window := w.(emergency := false)))
  {
  }

  /** A check expires an open window at its deadline unless it is flagged; a commit or rollback closes it. */
  lemma ClosingTakesEffect(s: System, evs: seq<Event>, k: nat)
    requires k < |evs|
    ensures var before, after := At(s, evs, k), At(s, evs, k + 1);
            var w, a := before.window, evs[k].action;
            && (a.Checks? ==>
                  after == before.(window := w.(state := if w.state.Open? && !w.emergency && evs[k].now >= w.state.deadline
                                                         then Expired(w.state.openedAt, w.state.deadline) else w.state)))
            && (a.Commits? || a.RollsBack? || (a.RollsBackChecked? && a.activeConsumers == 0) ==>
                  after == before.(window := w.(state := Idle)))
            && (a.RollsBackChecked? && a.activeConsumers > 0 ==> after == before)
            && (a.Reconfigures? ==> after == before.(window := w.(config := a.config)))
  {
  }

  /** An emergency in force is ended by its initiator or by force, and by nobody else. */
  lemma EndTakesEffect(s: System, evs: seq<Event>, k: nat)
    requires k < |evs| && evs[k].action.EndsEmergency?
    ensures var before, a := At(s, evs, k), evs[k].action;
            At(s, evs, k + 1) ==
              if before.emergency.Active? && (a.force || a.actor.principal == before.emergency.startedBy.principal)
              then before.(emergency := Inactive) else before
  {
  }

  /** An emergency starts when none is in force, with its expiry fixed then, and goes stale but does not end by itself. */
  lemma EmergencyTakesEffect(s: System, evs: seq<Event>, k: nat, later: real)
    requires k < |evs| && evs[k].action.StartsEmergency? && At(s, evs, k).emergency.Inactive?
    ensures var before, after := At(s, evs, k), At(s, evs, k + 1);
            var started := Active(evs[k].now, evs[k].action.actor, evs[k].action.reason,
                                  evs[k].now + before.emergencySeconds as real);
            && after == before.(emergency := started)
            && (Stale(after.emergency, later) <==> later >= evs[k].now + before.emergencySeconds as real)
  {
  }

  /** Every deadline in force was set by an action since which nothing closed the window or moved it. */
  lemma {:induction false} DeadlineHasSetter(s: System, evs: seq<Event>, k: nat) returns (j: nat)
    requires s.window.state.Idle? && k <= |evs| && Deadline(At(s, evs, k)).Some?
    ensures j < k && Grants(At(s, evs, j), evs[j], Deadline(At(s, evs, k)).value)
    ensures Stands(s, evs, j, k, Deadline(At(s, evs, k)).value)
  {
    DeadlineChangesOnlyBy(At(s, evs, k - 1), evs[k - 1]);
    if Grants(At(s, evs, k - 1), evs[k - 1], Deadline(At(s, evs, k)).value) {
      j := k - 1;
    } else {
      j := DeadlineHasSetter(s, evs, k - 1);
    }
  }

  // ---- What the timer does ----

  /** The window has run out: it expired before, or its deadline has come and its flag is off. */
  predicate Due(s: System, now: real) {
    || s.window.state.Expired?
    || (s.window.state.Open? && !s.window.emergency && s.window.state.deadline <= now)
  }

  /** Exactly when the second half of a pass closes a window; otherwise it leaves the window alone. */
  lemma ActClosesIff(s: System, now: real)
    requires Deadline(s).Some?
    ensures Deadline(Acted(s, now)).None? <==> s.armed && Due(s, now)
    ensures Acted(s, now) == if s.armed
                             then s.(armed := false, window := s.window.(state := if Due(s, now) then Idle else s.window.state))
                             else s
  {
  }

  /** A look arms the timer unless it sees observe mode or an emergency, and changes nothing else. */
  lemma LookTakesEffect(s: System, evs: seq<Event>, k: nat)
    requires k < |evs| && evs[k].action.Looks?
    ensures var before := At(s, evs, k);
            At(s, evs, k + 1)
            == before.(armed := before.armed || (before.enforcement != "observe" && before.emergency.Inactive?))
  {
  }

  /** Event `j` is the look of a pass that has not acted before event `k`. */
  ghost predicate LookedAt(s: System, evs: seq<Event>, j: nat, k: nat) {
    && j < k <= |evs| && evs[j].action.Looks? && !Skips(At(s, evs, j))
    && forall i :: j < i <= k ==> At(s, evs, i).armed && (i < k ==> !evs[i].action.Acts?)
  }

  /** Every pass that is under way began with a look that saw neither observe mode nor an emergency. */
  lemma {:induction false} PassHasLook(s: System, evs: seq<Event>, k: nat) returns (j: nat)
    requires !s.armed && k <= |evs| && At(s, evs, k).armed
    ensures LookedAt(s, evs, j, k)
  {
    if At(s, evs, k - 1).armed {
      j := PassHasLook(s, evs, k - 1);
    } else {
      j := k - 1;
    }
  }

  /** The emergency in force before event `k` was started by an event after `j`. */
  ghost predicate StartedSince(s: System, evs: seq<Event>, j: nat, k: nat)
    requires k <= |evs|
  {
    exists i :: j < i < k && StartsAt(s, evs, i, k)
  }

  /** Event `i` starts an emergency that is still in force before event `k`. */
  ghost predicate StartsAt(s: System, evs: seq<Event>, i: nat, k: nat)
    requires i < k <= |evs|
  {
    && evs[i].action.StartsEmergency? && At(s, evs, i).emergency.Inactive?
    && At(s, evs, i + 1).emergency.Active?
    && forall m :: i < m <= k ==> At(s, evs, m).emergency == At(s, evs, i + 1).emergency
  }

  lemma StillInForce(s: System, evs: seq<Event>, i: nat, k: nat)
    requires i < k - 1 < |evs| && StartsAt(s, evs, i, k - 1) && At(s, evs, k).emergency.Active?
    ensures StartsAt(s, evs, i, k)
  {
    assert At(s, evs, k).emergency == At(s, evs, k - 1).emergency;
  }

  /** An emergency that was not in force after event `j` and is before event `k` began in between. */
  lemma {:induction false} EmergencyBegan(s: System, evs: seq<Event>, j: nat, k: nat)
    requires j < k <= |evs| && At(s, evs, j + 1).emergency.Inactive?
    ensures At(s, evs, k).emergency.Active? <==> StartedSince(s, evs, j, k)
    decreases k
  {
    if At(s, evs, k).emergency.Active? {
      if At(s, evs, k - 1).emergency.Active? {
        EmergencyBegan(s, evs, j, k - 1);
        var i :| j < i < k - 1 && StartsAt(s, evs, i, k - 1);
        assert At(s, evs, k) == Apply(At(s, evs, k - 1), evs[k - 1]);
        StillInForce(s, evs, i, k);
      } else {
        assert StartsAt(s, evs, k - 1, k);
      }
    }
  }

  /**
   A4, exactly: a pass closes a window while an emergency is in force if and only if the
   window is due and that emergency started between the look and the act of this pass.
   */
  lemma ClosesInEmergencyIff(s: System, evs: seq<Event>, j: nat, k: nat)
    requires k < |evs| && LookedAt(s, evs, j, k) && evs[k].action.Acts?
    ensures var before := At(s, evs, k);
            (Deadline(before).Some? && Deadline(At(s, evs, k + 1)).None? && before.emergency.Active?)
            <==> (Due(before, evs[k].now) && StartedSince(s, evs, j, k))
  {
    EmergencyBegan(s, evs, j, k);
    assert At(s, evs, k).armed && At(s, evs, k + 1) == Acted(At(s, evs, k), evs[k].now);
    ActClosesWhenDue(At(s, evs, k), evs[k].now);
  }

  lemma ActClosesWhenDue(s: System, now: real)
    requires s.armed
    ensures Deadline(s).Some? && Deadline(Acted(s, now)).None? <==> Due(s, now)
  {
  }

  /** It does happen, in every state whose window is due: the look, the start of an emergency, the act. */
  lemma EmergencyInTheGap(s: System, now: real, actor: Identity, reason: string)
    requires !s.armed && !Skips(s) && Due(s, now)
    ensures var evs := [Event(now, Looks), Event(now, StartsEmergency(actor, reason)), Event(now, Acts)];
            At(s, evs, 3).emergency.Active? && At(s, evs, 3).window.state.Idle?
  {
    var evs := [Event(now, Looks), Event(now, StartsEmergency(actor, reason)), Event(now, Acts)];
    assert At(s, evs, 1) == Apply(At(s, evs, 0), evs[0]);
    assert At(s, evs, 2) == Apply(At(s, evs, 1), evs[1]);
    assert At(s, evs, 3) == Apply(At(s, evs, 2), evs[2]);
  }

  /** Such a run from the start: a window is opened, its time passes, and it is rolled back in an emergency. */
  lemma RolledBackInEmergency(config: WindowConfig, actor: Identity, reason: string) returns (evs: seq<Event>)
    ensures Timed(evs, 0.0) && evs != [] && evs[|evs| - 1].action.Acts?
    ensures var s := Initial(config, 0, "enforce");
            && At(s, evs, |evs| - 1).window.state.Open? && At(s, evs, |evs| - 1).emergency.Active?
            && At(s, evs, |evs|).window.state.Idle?
  {
    var s0 := Initial(config, 0, "enforce");
    var w := WindowSeconds(config.baseSeconds, config.sensitivity, 0.0) as real;
    evs := [Event(0.0, Opens(0.0)), Event(w, Looks), Event(w, StartsEmergency(actor, reason)), Event(w, Acts)];
    assert At(s0, evs, 0) == s0;
    var s1 := At(s0, evs, 1);
    assert s1 == Apply(s0, evs[0]) && s1.window.state == Open(0.0, w);
    var s2 := At(s0, evs, 2);
    assert s2 == Apply(s1, evs[1]) && s2.armed && s2.window == s1.window;
    var s3 := At(s0, evs, 3);
    assert s3 == Apply(s2, evs[2]) && s3.armed && s3.window == s1.window && s3.emergency.Active?;
    assert At(s0, evs, 4) == Apply(s3, evs[3]);
  }

  /**
   Auto-rollback safety: over every run, the timer closes a window only at or after the
   deadline, where that deadline was granted by an open, extend or enter-emergency since which
   nothing closed the window or moved the deadline; never in observe mode; never an open
   window under its own emergency flag; only in a pass that saw no emergency when it looked;
   and during one if and only if that emergency started since.
   */
  lemma AutoRollbackSafe(config: WindowConfig, emergencySeconds: nat, enforcement: string,
                         start: real, evs: seq<Event>, k: nat) returns (j: nat, look: nat)
    requires Timed(evs, start) && k < |evs| && evs[k].action.Acts?
    requires var s := Initial(config, emergencySeconds, enforcement);
             Deadline(At(s, evs, k)).Some? && Deadline(At(s, evs, k + 1)).None?
    ensures var s := Initial(config, emergencySeconds, enforcement);
            var before := At(s, evs, k);
            && j < k && Grants(At(s, evs, j), evs[j], Deadline(before).value)
            && Stands(s, evs, j, k, Deadline(before).value)
            && Deadline(before).value <= evs[k].now
            && enforcement != "observe"
            && (before.window.state.Open? ==> !before.window.emergency)
            && LookedAt(s, evs, look, k) && At(s, evs, look).emergency.Inactive?
            && (before.emergency.Active? <==> StartedSince(s, evs, look, k))
  {
    var s := Initial(config, emergencySeconds, enforcement);
    WindowOkRun(config, emergencySeconds, enforcement, start, evs, k);
    ActClosesIff(At(s, evs, k), evs[k].now);
    look := PassHasLook(s, evs, k);
    EnforcementFixed(s, evs, look);
    EmergencyBegan(s, evs, look, k);
    j := DeadlineHasSetter(s, evs, k);
  }

  lemma {:induction false} EnforcementFixed(s: System, evs: seq<Event>, k: nat)
    requires k <= |evs|
    ensures At(s, evs, k).enforcement == s.enforcement
  {
    if k > 0 {
      EnforcementFixed(s, evs, k - 1);
    }
  }

  /**
   Progress: after a pass has acted, the window is closed or open, and if its emergency flag
   is off its deadline lies strictly in the future; so a window that is left alone is closed
   by the first such act at or after its deadline.
   */
  lemma ActProgress(s: System, now: real)
    requires s.armed
    ensures var s' := Acted(s, now);
            && !s'.window.state.Expired?
            && (s'.window.state.Open? && !s'.window.emergency ==> now < s'.window.state.deadline)
  {
  }

  /** A window whose deadline nobody sets again keeps it until it is closed. */
  lemma {:induction false} DeadlineStays(s: System, evs: seq<Event>, i: nat, k: nat)
    requires i <= k <= |evs| && forall j :: i <= j < k ==> !SetsDeadline(evs[j].action)
    ensures At(s, evs, k).window.state.Idle? || Deadline(At(s, evs, k)) == Deadline(At(s, evs, i))
    decreases k
  {
    if i < k {
      DeadlineStays(s, evs, i, k - 1);
      if Deadline(At(s, evs, k)).Some? {
        DeadlineChangesOnlyBy(At(s, evs, k - 1), evs[k - 1]);
      }
    }
  }

  /**
   Over runs: once nobody sets its deadline any more, a window is closed no later than by the
   first pass that acts at or after the deadline and finds the flag off.
   */
  lemma UntouchedWindowCloses(s: System, evs: seq<Event>, i: nat, k: nat)
    requires i <= k < |evs| && Deadline(At(s, evs, i)).Some?
    requires forall j :: i <= j < k ==> !SetsDeadline(evs[j].action)
    requires evs[k].action.Acts? && At(s, evs, k).armed && !At(s, evs, k).window.emergency
    requires Deadline(At(s, evs, i)).value <= evs[k].now
    ensures At(s, evs, k + 1).window.state.Idle?
  {
    DeadlineStays(s, evs, i, k);
    ActProgress(At(s, evs, k), evs[k].now);
  }

  /** Under the flag no step makes a window expired, and an expired one stays as it is or is gone. */
  lemma FlagStep(s: System, e: Event)
    requires s.window.emergency && Apply(s, e).window.state.Expired?
    ensures s.window.state == Apply(s, e).window.state
  {
  }

  /** Over runs: as long as the window's emergency flag is set, a window that has not expired does not. */
  lemma {:induction false} FlagKeepsOpenWindow(s: System, evs: seq<Event>, i: nat, k: nat)
    requires i <= k <= |evs| && !At(s, evs, i).window.state.Expired?
    requires forall m :: i <= m < k ==> At(s, evs, m).window.emergency
    ensures !At(s, evs, k).window.state.Expired?
    decreases k
  {
    if i < k {
      FlagKeepsOpenWindow(s, evs, i, k - 1);
      if At(s, evs, k).window.state.Expired? {
        FlagStep(At(s, evs, k - 1), evs[k - 1]);
      }
    }
  }

  /** So a flagged window that is expired was so, in the same state, before the flag was set. */
  lemma {:induction false} FlaggedExpiredIsOlder(s: System, evs: seq<Event>, k: nat) returns (j: nat)
    requires !s.window.emergency && k <= |evs|
    requires At(s, evs, k).window.emergency && At(s, evs, k).window.state.Expired?
    ensures j < k && evs[j].action.Enters? && !At(s, evs, j).window.emergency
    ensures forall i :: j <= i <= k ==> At(s, evs, i).window.state == At(s, evs, k).window.state
    ensures forall i :: j < i <= k ==> At(s, evs, i).window.emergency
  {
    if At(s, evs, k - 1).window.emergency {
      FlagStep(At(s, evs, k - 1), evs[k - 1]);
      j := FlaggedExpiredIsOlder(s, evs, k - 1);
    } else {
      j := k - 1;
    }
  }

  /** It does not protect a window that had already expired: the timer rolls that one back. */
  lemma FlagDoesNotProtectExpired(config: WindowConfig) returns (evs: seq<Event>)
    ensures Timed(evs, 0.0) && evs != [] && evs[|evs| - 1].action.Acts?
    ensures var s := Initial(config, 0, "enforce");
            && At(s, evs, |evs| - 1).window.emergency && At(s, evs, |evs| - 1).window.state.Expired?
            && At(s, evs, |evs|).window.state.Idle?
  {
    var s0 := Initial(config, 0, "enforce");
    var w := WindowSeconds(config.baseSeconds, config.sensitivity, 0.0) as real;
    evs := [Event(0.0, Opens(0.0)), Event(w, Checks), Event(w, Enters), Event(w, Looks), Event(w, Acts)];
    assert At(s0, evs, 0) == s0;
    var s1 := At(s0, evs, 1);
    assert s1 == Apply(s0, evs[0]) && s1.window.state == Open(0.0, w);
    var s2 := At(s0, evs, 2);
    assert s2 == Apply(s1, evs[1]) && s2.window.state.Expired?;
    var s3 := At(s0, evs, 3);
    assert s3 == Apply(s2, evs[2]) && s3.window.emergency;
    var s4 := At(s0, evs, 4);
    assert s4 == Apply(s3, evs[3]) && s4.armed && s4.window == s3.window;
    assert At(s0, evs, 5) == Apply(s4, evs[4]);
  }

  /** A2 over runs: an emergency ends only by its initiator or by force. */
  lemma {:induction false} EmergencyEndsOnlyBy(s: System, evs: seq<Event>, i: nat, k: nat) returns (j: nat)
    requires i < k <= |evs| && At(s, evs, i).emergency.Active? && At(s, evs, k).emergency.Inactive?
    ensures i <= j < k && evs[j].action.EndsEmergency?
    ensures evs[j].action.force || evs[j].action.actor.principal == At(s, evs, i).emergency.startedBy.principal
    ensures At(s, evs, j).emergency == At(s, evs, i).emergency
    decreases k - i
  {
    if At(s, evs, i + 1).emergency == At(s, evs, i).emergency {
      j := EmergencyEndsOnlyBy(s, evs, i + 1, k);
    } else {
      j := i;
    }
  }
}
