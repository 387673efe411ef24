/** Conflict resolution after a partition: pending conflicts, paused keys and the grace period. */
module Conflicts {
  datatype ConflictEntry = ConflictEntry(key: string, localValue: seq<int>, journalValue: seq<int>, detectedAt: real)

  datatype Resolution = AcceptLocal | AcceptJournal

  datatype ConflictState = Pending | Resolved(choice: Resolution) | GraceExpired

  datatype Conflict = Conflict(entry: ConflictEntry, state: ConflictState)

  datatype ResolveResult = Done(entry: ConflictEntry) | NoConflict | AlreadyResolved

  /** The elements that are not in `keys`, in order. */
  function Without(s: seq<string>, keys: set<string>): seq<string> {
    if s == [] then []
    else
      var rest := Without(s[..|s| - 1], keys);
      if s[|s| - 1] in keys then rest else rest + [s[|s| - 1]]
  }

  /** The manager's state as a value; `grace` is in seconds. */
  datatype Manager = Manager(conflicts: map<string, Conflict>, paused: seq<string>, grace: nat) {

    function RegisterOne(e: ConflictEntry): Manager {
      Manager(conflicts[e.key := Conflict(e, Pending)],
              if e.key in paused then paused else paused + [e.key],
              grace)
    }

    function Register(entries: seq<ConflictEntry>): Manager {
      if entries == [] then this
      else Register(entries[..|entries| - 1]).RegisterOne(entries[|entries| - 1])
    }

    function Resolve(key: string, resolution: Resolution): (Manager, ResolveResult) {
      if key !in conflicts then (this, NoConflict)
      else if conflicts[key].state != Pending then (this, AlreadyResolved)
      else
        (this.(conflicts := conflicts[key := conflicts[key].(state := Resolved(resolution))],
               paused := Without(paused, {key})),
         Done(conflicts[key].entry))
    }

    predicate Overdue(key: string, now: real) {
      key in conflicts && conflicts[key].state == Pending && now >= conflicts[key].entry.detectedAt + grace as real
    }

    function CheckGrace(now: real): Manager {
      this.(conflicts := map k | k in conflicts ::
                           if Overdue(k, now) then conflicts[k].(state := GraceExpired) else conflicts[k],
            paused := Without(paused, set k | k in conflicts && Overdue(k, now)))
    }

    function ClearResolved(): Manager {
      this.(conflicts := map k | k in conflicts && conflicts[k].state == Pending :: conflicts[k])
    }

    predicate AllResolved() {
      forall k :: k in conflicts ==> conflicts[k].state != Pending
    }
  }

  function NewManager(grace: nat): Manager {
    Manager(map[], [], grace)
  }

  class ConflictManager {
    var conflicts: map<string, Conflict>
    var pausedKeys: seq<string>
    var gracePeriod: nat

    ghost function Value(): Manager
      reads this
    {
      Manager(conflicts, pausedKeys, gracePeriod)
    }

    constructor (graceSeconds: nat)
      ensures Value() == NewManager(graceSeconds)
      ensures conflicts == map[] && pausedKeys == [] && gracePeriod == graceSeconds
    {
      conflicts, pausedKeys, gracePeriod := map[], [], graceSeconds;
    }

    method RegisterConflicts(entries: seq<ConflictEntry>)
      modifies this`conflicts, this`pausedKeys
      ensures Value() == old(Value()).Register(entries)
    {
      var i := 0;
      while i < |entries|
        invariant 0 <= i <= |entries|
        invariant Value() == old(Value()).Register(entries[..i])
      {
        var key := entries[i].key;
        if key !in pausedKeys {
          pausedKeys := pausedKeys + [key];
        }
        conflicts := conflicts[key := Conflict(entries[i], Pending)];
        assert entries[..i + 1][..i] == entries[..i];
        i := i + 1;
      }
      assert entries[..i] == entries;
    }

    method Resolve(key: string, resolution: Resolution) returns (r: ResolveResult)
      modifies this`conflicts, this`pausedKeys
      ensures (Value(), r) == old(Value()).Resolve(key, resolution)
    {
      if key !in conflicts {
        return NoConflict;
      }
      var c := conflicts[key];
      if c.state != Pending {
        return AlreadyResolved;
      }
      conflicts := conflicts[key := c.(state := Resolved(resolution))];
      pausedKeys := Without(pausedKeys, {key});
      r := Done(c.entry);
    }

    /** The conflicts are visited in the map's own order; each expired key is listed once. */
    method MarkOverdue(now: real) returns (expired: seq<string>)
      modifies this`conflicts
      ensures conflicts == old(Value()).CheckGrace(now).conflicts
      ensures forall k :: k in expired <==> old(Value()).Overdue(k, now)
      ensures Distinct(expired)
    {
      expired := [];
      var todo := conflicts.Keys;
      while todo != {}
        invariant todo <= old(conflicts).Keys == conflicts.Keys
        invariant forall k :: k in conflicts ==>
          conflicts[k] == if k !in todo && old(Value()).Overdue(k, now) then old(conflicts)[k].(state := GraceExpired)
                          else old(conflicts)[k]
        invariant forall k :: k in expired <==> k !in todo && old(Value()).Overdue(k, now)
        invariant Distinct(expired)
        decreases todo
      {
        var key :| key in todo;
        var c := conflicts[key];
        if c.state == Pending && now >= c.entry.detectedAt + gracePeriod as real {
          conflicts := conflicts[key := c.(state := GraceExpired)];
          expired := expired + [key];
        }
        todo := todo - {key};
      }
    }

    /** Takes each of the keys off the pause list. */
    method Unpause(keys: seq<string>)
      modifies this`pausedKeys
      ensures pausedKeys == WithoutEach(old(pausedKeys), keys)
    {
      var i := 0;
      while i < |keys|
        invariant 0 <= i <= |keys|
        invariant pausedKeys == WithoutEach(old(pausedKeys), keys[..i])
      {
        assert keys[..i + 1][..i] == keys[..i];
        pausedKeys := Without(pausedKeys, {keys[i]});
        i := i + 1;
      }
      assert keys[..i] == keys;
    }

    method CheckGracePeriods(now: real) returns (expired: seq<string>)
      modifies this`conflicts, this`pausedKeys
      ensures Value() == old(Value()).CheckGrace(now)
      ensures forall k :: k in expired <==>
                && k in old(conflicts) && old(conflicts)[k].state == Pending
                && now >= old(conflicts)[k].entry.detectedAt + gracePeriod as real
      ensures Distinct(expired)
    {
      expired := MarkOverdue(now);
      Unpause(expired);
      WithoutEachIs(old(pausedKeys), expired, set k | k in old(conflicts) && old(Value()).Overdue(k, now));
    }

    method ClearResolved()
      modifies this`conflicts
      ensures Value() == old(Value()).ClearResolved()
    {
      conflicts := map k | k in conflicts && conflicts[k].state == Pending :: conflicts[k];
    }
  }

  lemma {:induction false} WithoutNothing(s: seq<string>)
    ensures Without(s, {}) == s
  {
    if s != [] {
      WithoutNothing(s[..|s| - 1]);
    }
  }

  lemma {:induction false} WithoutTwice(s: seq<string>, a: set<string>, b: set<string>)
    ensures Without(Without(s, a), b) == Without(s, a + b)
  {
    if s != [] {
      var n := |s| - 1;
      WithoutTwice(s[..n], a, b);
      var rest := Without(s[..n], a);
      if s[n] !in a {
        assert (rest + [s[n]])[..|rest|] == rest;
      }
    }
  }

  /** One pass over the list per key, as the source does it. */
  function WithoutEach(s: seq<string>, keys: seq<string>): seq<string> {
    if keys == [] then s
    else Without(WithoutEach(s, keys[..|keys| - 1]), {keys[|keys| - 1]})
  }

  lemma {:induction false} WithoutEachIs(s: seq<string>, keys: seq<string>, all: set<string>)
    requires forall k :: k in all <==> k in keys
    ensures WithoutEach(s, keys) == Without(s, all)
    decreases |keys|
  {
    if keys == [] {
      assert all == {};
      WithoutNothing(s);
    } else {
      var n := |keys| - 1;
      var before := set k | k in all && k in keys[..n];
      assert keys == keys[..n] + [keys[n]];
      WithoutEachIs(s, keys[..n], before);
      WithoutTwice(s, before, {keys[n]});
      assert before + {keys[n]} == all;
    }
  }

  lemma {:induction false} WithoutIs(s: seq<string>, keys: set<string>)
    ensures forall k :: k in Without(s, keys) <==> k in s && k !in keys
    ensures Distinct(s) ==> Distinct(Without(s, keys))
  {
    if s != [] {
      var n := |s| - 1;
      WithoutIs(s[..n], keys);
      assert s == s[..n] + [s[n]];
    }
  }

  ghost predicate Distinct(s: seq<string>) {
    forall i, j :: 0 <= i < j < |s| ==> s[i] != s[j]
  }

  // ---- Runs ----

  datatype Event =
    | Registers(entries: seq<ConflictEntry>)
    | Resolves(key: string, resolution: Resolution)
    | Checks(now: real)
    | Clears

  function Step(m: Manager, e: Event): Manager {
    match e
    case Registers(entries) => m.Register(entries)
    case Resolves(key, resolution) => m.Resolve(key, resolution).0
    case Checks(now) => m.CheckGrace(now)
    case Clears => m.ClearResolved()
  }

  function At(m: Manager, evs: seq<Event>, k: nat): Manager
    requires k <= |evs|
  {
    if k == 0 then m else Step(At(m, evs, k - 1), evs[k - 1])
  }

  ghost predicate IsPending(m: Manager, key: string) {
    key in m.conflicts && m.conflicts[key].state == Pending
  }

  /** CR2: the paused keys are exactly the pending ones, each once. */
  ghost predicate Inv(m: Manager) {
    && Distinct(m.paused)
    && forall k :: k in m.paused <==> IsPending(m, k)
  }

  lemma RegisterOneKeepsInv(m: Manager, e: ConflictEntry)
    requires Inv(m)
    ensures Inv(m.RegisterOne(e))
  {
    var m' := m.RegisterOne(e);
    forall k ensures k in m'.paused <==> IsPending(m', k) {
      assert k in m.paused <==> IsPending(m, k);
    }
  }

  lemma {:induction false} RegisterKeepsInv(m: Manager, entries: seq<ConflictEntry>)
    requires Inv(m)
    ensures Inv(m.Register(entries))
  {
    if entries != [] {
      RegisterKeepsInv(m, entries[..|entries| - 1]);
      RegisterOneKeepsInv(m.Register(entries[..|entries| - 1]), entries[|entries| - 1]);
    }
  }

  lemma StepKeepsInv(m: Manager, e: Event)
    requires Inv(m)
    ensures Inv(Step(m, e))
  {
    var m' := Step(m, e);
    match e {
      case Registers(entries) =>
        RegisterKeepsInv(m, entries);
      case Resolves(key, resolution) =>
        WithoutIs(m.paused, {key});
        forall k ensures k in m'.paused <==> IsPending(m', k) {
          assert k in m.paused <==> IsPending(m, k);
        }
      case Checks(now) =>
        WithoutIs(m.paused, set k | k in m.conflicts && m.Overdue(k, now));
        forall k ensures k in m'.paused <==> IsPending(m', k) {
          assert k in m.paused <==> IsPending(m, k);
        }
      case Clears =>
        forall k ensures k in m'.paused <==> IsPending(m', k) {
          assert k in m.paused <==> IsPending(m, k);
        }
    }
  }

  /** In every reachable state the pause list has no duplicates and lists exactly the pending keys. */
  lemma {:induction false} PausedArePending(grace: nat, evs: seq<Event>, k: nat)
    requires k <= |evs|
    ensures Inv(At(NewManager(grace), evs, k))
  {
    if k > 0 {
      PausedArePending(grace, evs, k - 1);
      StepKeepsInv(At(NewManager(grace), evs, k - 1), evs[k - 1]);
    }
  }

  // ---- One outcome per registration ----

  ghost predicate Names(e: Event, key: string) {
    e.Registers? && exists i :: 0 <= i < |e.entries| && e.entries[i].key == key
  }

  lemma {:induction false} RegisterElsewhere(m: Manager, entries: seq<ConflictEntry>, key: string)
    requires forall i :: 0 <= i < |entries| ==> entries[i].key != key
    ensures var m' := m.Register(entries);
            && (key in m'.conflicts <==> key in m.conflicts)
            && (key in m.conflicts ==> m'.conflicts[key] == m.conflicts[key])
  {
    if entries != [] {
      RegisterElsewhere(m, entries[..|entries| - 1], key);
    }
  }

  lemma {:induction false} RegisterNamed(m: Manager, entries: seq<ConflictEntry>, i: nat)
    requires i < |entries|
    ensures IsPending(m.Register(entries), entries[i].key)
  {
    var n := |entries| - 1;
    if i < n {
      RegisterNamed(m, entries[..n], i);
    }
  }

  /** What a registration leaves of a key: the last entry that names it, pending, and its place in the pause list. */
  lemma {:induction false} RegisterKeepsLast(m: Manager, entries: seq<ConflictEntry>, i: nat)
    requires i < |entries| && forall j :: i < j < |entries| ==> entries[j].key != entries[i].key
    ensures var m' := m.Register(entries);
            && entries[i].key in m'.conflicts && m'.conflicts[entries[i].key] == Conflict(entries[i], Pending)
            && m.paused <= m'.paused && m'.grace == m.grace
  {
    var n := |entries| - 1;
    PausedGrow(m, entries[..n]);
    if i < n {
      RegisterKeepsLast(m, entries[..n], i);
    }
  }

  /** Keys that were paused keep their places; new ones come after them. */
  lemma {:induction false} PausedGrow(m: Manager, entries: seq<ConflictEntry>)
    ensures m.paused <= m.Register(entries).paused && m.Register(entries).grace == m.grace
  {
    if entries != [] {
      PausedGrow(m, entries[..|entries| - 1]);
    }
  }

  /** A clearing drops exactly what is settled. */
  lemma ClearDropsSettled(m: Manager, key: string)
    ensures var m' := m.ClearResolved();
            && m'.paused == m.paused && m'.grace == m.grace
            && (key in m'.conflicts <==> IsPending(m, key))
            && (key in m'.conflicts ==> m'.conflicts[key] == m.conflicts[key])
  {
  }

  /** A key that is not pending does not become pending, or change, unless it is registered. */
  lemma SettledStep(m: Manager, e: Event, key: string)
    requires !IsPending(m, key) && !Names(e, key)
    ensures var m' := Step(m, e);
            key in m'.conflicts ==> key in m.conflicts && m'.conflicts[key] == m.conflicts[key]
  {
    if e.Registers? {
      RegisterElsewhere(m, e.entries, key);
    }
  }

  /**
   The outcome of a key stays in the resolution log, word for word, through every event
   except a clearing and a new registration of that key, which both drop it.
   */
  lemma OutcomeLoggedUnless(m: Manager, e: Event, key: string)
    requires key in m.conflicts && !IsPending(m, key)
    ensures var m' := Step(m, e);
            key in m'.conflicts && m'.conflicts[key] == m.conflicts[key] <==> !e.Clears? && !Names(e, key)
  {
    if Names(e, key) {
      var i :| 0 <= i < |e.entries| && e.entries[i].key == key;
      RegisterNamed(m, e.entries, i);
    } else if e.Registers? {
      RegisterElsewhere(m, e.entries, key);
    }
  }

  /** A key that is settled or absent stays so, unchanged until cleared, as long as it is not registered again. */
  lemma {:induction false} SettledStays(m: Manager, evs: seq<Event>, key: string, i: nat, k: nat)
    requires i <= k <= |evs| && !IsPending(At(m, evs, i), key)
    requires forall j :: i <= j < k ==> !Names(evs[j], key)
    ensures var before, after := At(m, evs, i), At(m, evs, k);
            key in after.conflicts ==> key in before.conflicts && after.conflicts[key] == before.conflicts[key]
    decreases k
  {
    if i < k {
      SettledStays(m, evs, key, i, k - 1);
      SettledStep(At(m, evs, k - 1), evs[k - 1], key);
    }
  }

  /**
   Between two registrations of a key it takes at most one outcome: whatever resolve or
   grace expiry settled, no later event changes; it can only be cleared away.
   */
  lemma OneOutcome(grace: nat, evs: seq<Event>, key: string, i: nat, k: nat)
    requires i <= k <= |evs| && forall j :: i <= j < k ==> !Names(evs[j], key)
    requires var m := NewManager(grace);
             key in At(m, evs, i).conflicts && key in At(m, evs, k).conflicts && !IsPending(At(m, evs, i), key)
    ensures At(NewManager(grace), evs, k).conflicts[key] == At(NewManager(grace), evs, i).conflicts[key]
  {
    SettledStays(NewManager(grace), evs, key, i, k);
  }

  // ---- The grace period runs out ----

  /** The grace period of every pending conflict is over at `now`. */
  ghost predicate AllOverdue(m: Manager, now: real) {
    forall k :: k in m.conflicts && m.conflicts[k].state == Pending ==>
      now >= m.conflicts[k].entry.detectedAt + m.grace as real
  }

  lemma ResolvedStep(m: Manager, e: Event)
    requires m.AllResolved() && !e.Registers?
    ensures Step(m, e).AllResolved()
  {
  }

  lemma {:induction false} NothingPendingStays(m: Manager, evs: seq<Event>, i: nat, k: nat)
    requires i <= k <= |evs| && At(m, evs, i).AllResolved()
    requires forall j :: i <= j < k ==> !evs[j].Registers?
    ensures At(m, evs, k).AllResolved()
    decreases k
  {
    if i < k {
      NothingPendingStays(m, evs, i, k - 1);
      ResolvedStep(At(m, evs, k - 1), evs[k - 1]);
    }
  }

  lemma FirstMember(keys: seq<string>)
    ensures keys == [] || keys[0] in keys
  {
  }

  lemma {:induction false} GraceFixed(m: Manager, evs: seq<Event>, k: nat)
    requires k <= |evs|
    ensures At(m, evs, k).grace == m.grace
  {
    if k > 0 {
      GraceFixed(m, evs, k - 1);
      if evs[k - 1].Registers? {
        PausedGrow(At(m, evs, k - 1), evs[k - 1].entries);
      }
    }
  }

  /**
   CR3: a check at a time when every pending conflict is past its detection time plus the
   grace period leaves nothing pending and nothing paused, and so it stays until a new
   conflict is registered.
   */
  lemma GraceRunsOut(grace: nat, evs: seq<Event>, i: nat, k: nat)
    requires i < k <= |evs| && evs[i].Checks?
    requires var m := At(NewManager(grace), evs, i);
             forall c :: c in m.conflicts && m.conflicts[c].state == Pending ==>
               evs[i].now >= m.conflicts[c].entry.detectedAt + grace as real
    requires forall j :: i < j < k ==> !evs[j].Registers?
    ensures At(NewManager(grace), evs, k).AllResolved() && At(NewManager(grace), evs, k).paused == []
  {
    var m := NewManager(grace);
    GraceFixed(m, evs, i);
    CheckResolvesAll(At(m, evs, i), evs[i].now);
    NothingPendingStays(m, evs, i + 1, k);
    PausedArePending(grace, evs, k);
    FirstMember(At(m, evs, k).paused);
  }

  /** In every reachable state all conflicts are resolved if and only if nothing is paused. */
  lemma AllResolvedIff(grace: nat, evs: seq<Event>, k: nat)
    requires k <= |evs|
    ensures At(NewManager(grace), evs, k).AllResolved() <==> At(NewManager(grace), evs, k).paused == []
  {
    var m := At(NewManager(grace), evs, k);
    PausedArePending(grace, evs, k);
    FirstMember(m.paused);
    if m.paused == [] {
      forall key | key in m.conflicts ensures m.conflicts[key].state != Pending {
        assert key !in m.paused;
      }
    }
  }

  lemma CheckResolvesAll(m: Manager, now: real)
    requires AllOverdue(m, now)
    ensures m.CheckGrace(now).AllResolved()
  {
  }

  /** Event `j` is a check at or after `due`. */
  predicate ChecksFrom(evs: seq<Event>, j: nat, due: real)
    requires j < |evs|
  {
    evs[j].Checks? && evs[j].now >= due
  }

  /** Nobody decides the key or registers it again. */
  ghost predicate LeftAlone(evs: seq<Event>, key: string, i: nat, k: nat)
    requires k <= |evs|
  {
    forall j :: i <= j < k ==> !Names(evs[j], key) && !(evs[j].Resolves? && evs[j].key == key)
  }

  /** One event on a pending key that it neither registers nor decides. */
  lemma PendingStep(m: Manager, e: Event, key: string)
    requires IsPending(m, key) && !Names(e, key) && !(e.Resolves? && e.key == key)
    ensures var m' := Step(m, e);
            && key in m'.conflicts && m'.conflicts[key].entry == m.conflicts[key].entry
            && m'.conflicts[key].state ==
                 if e.Checks? && e.now >= m.conflicts[key].entry.detectedAt + m.grace as real then GraceExpired else Pending
  {
    if e.Registers? {
      RegisterElsewhere(m, e.entries, key);
    }
  }

  ghost predicate Checked(evs: seq<Event>, i: nat, k: nat, due: real)
    requires k <= |evs|
  {
    exists j :: i <= j < k && ChecksFrom(evs, j, due)
  }

  lemma CheckedOneMore(evs: seq<Event>, i: nat, k: nat, due: real)
    requires i < k <= |evs|
    ensures Checked(evs, i, k, due) <==> Checked(evs, i, k - 1, due) || ChecksFrom(evs, k - 1, due)
  {
    if Checked(evs, i, k - 1, due) {
      var j :| i <= j < k - 1 && ChecksFrom(evs, j, due);
      assert i <= j < k && ChecksFrom(evs, j, due);
    }
  }

  /** The conflict `entry` is pending, or settled in the journal's favour and perhaps cleared away. */
  ghost predicate Outcome(m: Manager, entry: ConflictEntry, settled: bool) {
    if settled then entry.key in m.conflicts ==> m.conflicts[entry.key] == Conflict(entry, GraceExpired)
    else entry.key in m.conflicts && m.conflicts[entry.key] == Conflict(entry, Pending)
  }

  lemma OutcomeStep(m: Manager, e: Event, entry: ConflictEntry, settled: bool)
    requires Outcome(m, entry, settled) && !Names(e, entry.key) && !(e.Resolves? && e.key == entry.key)
    ensures Outcome(Step(m, e), entry, settled || (e.Checks? && e.now >= entry.detectedAt + m.grace as real))
  {
    if settled {
      SettledStep(m, e, entry.key);
    } else {
      PendingStep(m, e, entry.key);
    }
  }

  /**
   CR3 over runs: a pending conflict that is left alone is settled by a check only at or after
   its detection time plus the grace period, and by the first check from then on. Until then
   it is pending with its entry unchanged, and from then on it is settled in the journal's favour.
   */
  lemma {:induction false} SettledByFirstCheckAfterGrace(grace: nat, evs: seq<Event>, entry: ConflictEntry, i: nat, k: nat)
    requires i <= k <= |evs| && Outcome(At(NewManager(grace), evs, i), entry, false) && LeftAlone(evs, entry.key, i, k)
    ensures Outcome(At(NewManager(grace), evs, k), entry, Checked(evs, i, k, entry.detectedAt + grace as real))
    decreases k
  {
    if i < k {
      var m := NewManager(grace);
      SettledByFirstCheckAfterGrace(grace, evs, entry, i, k - 1);
      GraceFixed(m, evs, k - 1);
      CheckedOneMore(evs, i, k, entry.detectedAt + grace as real);
      OutcomeStep(At(m, evs, k - 1), evs[k - 1], entry, Checked(evs, i, k - 1, entry.detectedAt + grace as real));
    }
  }

  /**
   A decision takes effect exactly on a pending key: it is then no longer paused and the
   decision is what the log holds. Otherwise nothing changes. No other key is touched.
   */
  lemma ResolveSettlesIff(m: Manager, key: string, resolution: Resolution, other: string)
    requires Inv(m)
    ensures var (m', r) := m.Resolve(key, resolution);
            && (r.Done? <==> key in m.paused) && (r.NoConflict? <==> key !in m.conflicts)
            && (!r.Done? ==> m' == m)
            && (r.Done? ==> key in m'.conflicts && key !in m'.paused
                            && m'.conflicts[key] == Conflict(r.entry, Resolved(resolution))
                            && r.entry == m.conflicts[key].entry)
            && (other != key ==>
                  && (other in m'.paused <==> other in m.paused)
                  && (other in m'.conflicts <==> other in m.conflicts)
                  && (other in m.conflicts ==> m'.conflicts[other] == m.conflicts[other]))
  {
    WithoutIs(m.paused, {key});
  }

  /**
   A check settles a key, in the journal's favour, and takes it off the pause list exactly when
   it is pending and its grace period is over; it touches nothing else.
   */
  lemma CheckSettlesOverdue(m: Manager, now: real, key: string)
    requires Inv(m) && key in m.conflicts
    ensures var m', c := m.CheckGrace(now), m.conflicts[key];
            var over := c.state == Pending && now >= c.entry.detectedAt + m.grace as real;
            && m'.conflicts.Keys == m.conflicts.Keys && m'.grace == m.grace
            && m'.conflicts[key] == (if over then Conflict(c.entry, GraceExpired) else c)
            && (key in m'.paused <==> key in m.paused && !over)
  {
    WithoutIs(m.paused, set k | k in m.conflicts && m.Overdue(k, now));
  }
}
