/**
 The config streaming protocol as a transition system: appenders, the broadcast channel,
 the journal's subscription task and the agent that reconnects.

 The steps are the atomic sections of the code. In particular the subscription reads the
 log under a lock (`Subscribe`), drops the lock, and only then joins the channel
 (`Attach`); an appender commits an entry and broadcasts it later (`Append`, `Notify`);
 and an entry that reaches this journal node by replication is never broadcast here
 (`Replicate`), because only the node that served the append notifies.
 */
module Subscription {
  import opened ConfigTypes
  import opened ConfigUpdates

  datatype Session =
    | Down
    // The log was read up to `seen`; the channel is not joined yet.
    | Snapped(from: nat, seen: nat)
    // Joined at channel position `attached`, heard up to `pos`; `sent` catch-up items and
    // then live items were put on the stream `out`, of which the agent took `taken`.
    | Up(from: nat, seen: nat, attached: nat, sent: nat, pos: nat, last: nat,
         out: seq<Update>, taken: nat, ended: bool)

  datatype State = State(
    log: seq<ConfigEntry>,
    unsent: set<nat>,
    bus: seq<Update>,
    session: Session,
    agentLast: nat,
    processed: seq<Update>)

  datatype Step =
    | Append(entry: ConfigEntry)
    | Replicate(entry: ConfigEntry)
    | Notify(sequence: nat)
    | Subscribe
    | Attach
    | SendCatchUp
    | Receive
    | Process
    | Disconnect

  function Init(): State {
    State([], {}, [], Down, 0, [])
  }

  function CatchUp(s: State): seq<Update>
    requires s.session.Up? && s.session.seen <= |s.log|
  {
    Slice(s.log, s.session.from, s.session.seen)
  }

  ghost predicate Enabled(s: State, step: Step) {
    match step
    case Append(_) => true
    case Replicate(_) => true
    case Notify(n) => n in s.unsent && n < |s.log|
    case Subscribe => s.session.Down?
    case Attach => s.session.Snapped? && s.session.seen <= |s.log|
    case SendCatchUp =>
      s.session.Up? && !s.session.ended && s.session.seen <= |s.log| && s.session.sent < |CatchUp(s)|
    case Receive =>
      s.session.Up? && !s.session.ended && s.session.seen <= |s.log| && s.session.sent == |CatchUp(s)|
      && s.session.pos < |s.bus|
    case Process => s.session.Up? && s.session.taken < |s.session.out|
    case Disconnect => !s.session.Down?
  }

  /** The effect of a step; `capacity` is that of the broadcast channel. */
  ghost function Apply(s: State, step: Step, capacity: nat): State
    requires Enabled(s, step)
  {
    match step
    case Append(entry) =>
      s.(log := s.log + [entry.(sequence := |s.log|)], unsent := s.unsent + {|s.log|})
    case Replicate(entry) =>
      s.(log := s.log + [entry.(sequence := |s.log|)])
    case Notify(n) =>
      s.(unsent := s.unsent - {n}, bus := s.bus + [Update(n, s.log[n])])
    case Subscribe =>
      s.(session := Snapped(s.agentLast, |s.log|))
    case Attach =>
      var Snapped(from, seen) := s.session;
      var last := InitialLastSent(Slice(s.log, from, seen), from);
      s.(session := Up(from, seen, |s.bus|, 0, |s.bus|, last, [], 0, false))
    case SendCatchUp =>
      s.(session := s.session.(sent := s.session.sent + 1,
                               out := s.session.out + [CatchUp(s)[s.session.sent]]))
    case Receive =>
      s.(session := Heard(s.session, s.bus, capacity))
    case Process =>
      var u := s.session.out[s.session.taken];
      s.(session := s.session.(taken := s.session.taken + 1),
         agentLast := u.sequence, processed := s.processed + [u])
    case Disconnect =>
      s.(session := Down)
  }

  /** One `recv` of the live loop: a receiver more than `capacity` behind is disconnected. */
  ghost function Heard(up: Session, bus: seq<Update>, capacity: nat): Session
    requires up.Up? && up.pos < |bus|
  {
    if |bus| - up.pos > capacity then up.(ended := true)
    else
      var u := bus[up.pos];
      if u.sequence <= up.last then up.(pos := up.pos + 1)
      else up.(pos := up.pos + 1, last := u.sequence, out := up.out + [u])
  }

  ghost predicate IsRun(s: State, steps: seq<Step>, capacity: nat)
    decreases |steps|
  {
    steps == [] || (Enabled(s, steps[0]) && IsRun(Apply(s, steps[0], capacity), steps[1..], capacity))
  }

  ghost function After(s: State, steps: seq<Step>, capacity: nat): State
    requires IsRun(s, steps, capacity)
    decreases |steps|
  {
    if steps == [] then s else After(Apply(s, steps[0], capacity), steps[1..], capacity)
  }

  /** Every step of the run satisfies `p` in the state it is taken from. */
  ghost predicate Throughout(s: State, steps: seq<Step>, capacity: nat, p: (State, Step) -> bool)
    requires IsRun(s, steps, capacity)
    decreases |steps|
  {
    steps == [] || (p(s, steps[0]) && Throughout(Apply(s, steps[0], capacity), steps[1..], capacity, p))
  }

  // ---- The invariant of every run ----

  ghost predicate Committed(log: seq<ConfigEntry>, u: Update) {
    u.sequence < |log| && u.entry == log[u.sequence]
  }

  ghost predicate UpOk(log: seq<ConfigEntry>, bus: seq<Update>, up: Session)
    requires up.Up?
  {
    && up.seen <= |log|
    && up.attached <= up.pos <= |bus|
    && var catchup := Slice(log, up.from, up.seen);
    && (up.sent < |catchup| ==> up.pos == up.attached)
    && StreamOk(catchup, up.from, up.sent, bus[up.attached..up.pos], up.last, up.out)
    && up.taken <= |up.out|
  }

  ghost predicate SessionOk(s: State) {
    && (s.session.Snapped? ==> s.session.seen <= |s.log|)
    && (s.session.Up? ==> UpOk(s.log, s.bus, s.session))
  }

  /** The agent's position is that of the item it processed last, or where the session started. */
  ghost predicate AgentOk(s: State) {
    && s.agentLast == (if s.processed == [] then 0 else s.processed[|s.processed| - 1].sequence)
    && (s.session.Snapped? ==> s.agentLast == s.session.from)
    && (s.session.Up? ==> s.session.taken <= |s.processed|)
    && (s.session.Up? && s.session.taken <= |s.session.out| ==>
          s.agentLast == if s.session.taken == 0 then s.session.from
                         else s.session.out[s.session.taken - 1].sequence)
  }

  ghost predicate Inv(s: State) {
    && (forall u :: u in s.bus ==> Committed(s.log, u))
    && (forall u :: u in s.processed ==> Committed(s.log, u))
    && SessionOk(s)
    && AgentOk(s)
  }

  lemma SliceGrows(log: seq<ConfigEntry>, e: ConfigEntry, lo: nat, hi: nat)
    requires hi <= |log|
    ensures Slice(log + [e], lo, hi) == Slice(log, lo, hi)
  {
  }

  /** Everything on the stream is a committed entry. */
  lemma OutCommitted(s: State)
    requires s.session.Up? && SessionOk(s) && forall u :: u in s.bus ==> Committed(s.log, u)
    ensures forall u :: u in s.session.out ==> Committed(s.log, u)
  {
    var heard := s.bus[s.session.attached..s.session.pos];
    ForwardedAbove(InitialLastSent(CatchUp(s), s.session.from), heard);
  }

  lemma InvAppend(s: State, entry: ConfigEntry, s': State)
    requires Inv(s)
    requires s'.log == s.log + [entry]
    requires s'.bus == s.bus && s'.session == s.session && s'.agentLast == s.agentLast && s'.processed == s.processed
    ensures Inv(s')
  {
    if s.session.Up? {
      SliceGrows(s.log, entry, s.session.from, s.session.seen);
      assert CatchUp(s') == CatchUp(s);
    }
  }

  lemma InvNotify(s: State, n: nat, capacity: nat)
    requires Inv(s) && Enabled(s, Notify(n))
    ensures Inv(Apply(s, Notify(n), capacity))
  {
    var s' := Apply(s, Notify(n), capacity);
    if s.session.Up? {
      assert s'.bus[s.session.attached..s.session.pos] == s.bus[s.session.attached..s.session.pos];
    }
  }

  lemma InvAttach(s: State, capacity: nat)
    requires Inv(s) && Enabled(s, Attach)
    ensures Inv(Apply(s, Attach, capacity))
  {
    var s' := Apply(s, Attach, capacity);
    assert s'.bus[s'.session.attached..s'.session.pos] == [];
  }

  lemma InvSendCatchUp(s: State, capacity: nat)
    requires Inv(s) && Enabled(s, SendCatchUp)
    ensures Inv(Apply(s, SendCatchUp, capacity))
  {
    var up := s.session;
    assert s.bus[up.attached..up.pos] == [];
    StreamCatchesUp(CatchUp(s), up.from, up.sent, up.last, up.out);
    assert CatchUp(Apply(s, SendCatchUp, capacity)) == CatchUp(s);
  }

  lemma UpOkHeard(log: seq<ConfigEntry>, bus: seq<Update>, up: Session, capacity: nat)
    requires up.Up? && UpOk(log, bus, up) && up.pos < |bus| && up.sent == |Slice(log, up.from, up.seen)|
    ensures UpOk(log, bus, Heard(up, bus, capacity))
  {
    var heard, u := bus[up.attached..up.pos], bus[up.pos];
    assert bus[up.attached..up.pos + 1] == heard + [u];
    if |bus| - up.pos <= capacity {
      StreamHears(Slice(log, up.from, up.seen), up.from, up.sent, heard, up.last, up.out, u);
    }
  }

  lemma HeardExtends(up: Session, bus: seq<Update>, capacity: nat)
    requires up.Up? && up.pos < |bus| && up.taken <= |up.out|
    ensures var up' := Heard(up, bus, capacity);
            && up'.from == up.from && up'.taken == up.taken
            && up.out <= up'.out && (up.taken > 0 ==> up'.out[up.taken - 1] == up.out[up.taken - 1])
  {
  }

  lemma InvReceive(s: State, capacity: nat)
    requires Inv(s) && Enabled(s, Receive)
    ensures Inv(Apply(s, Receive, capacity))
  {
    UpOkHeard(s.log, s.bus, s.session, capacity);
    HeardExtends(s.session, s.bus, capacity);
  }

  lemma InvProcess(s: State, capacity: nat)
    requires Inv(s) && Enabled(s, Process)
    ensures Inv(Apply(s, Process, capacity))
  {
    OutCommitted(s);
    assert CatchUp(Apply(s, Process, capacity)) == CatchUp(s);
  }

  lemma InvStep(s: State, step: Step, capacity: nat)
    requires Inv(s) && Enabled(s, step)
    ensures Inv(Apply(s, step, capacity))
  {
    match step
    case Append(entry) => InvAppend(s, entry.(sequence := |s.log|), Apply(s, step, capacity));
    case Replicate(entry) => InvAppend(s, entry.(sequence := |s.log|), Apply(s, step, capacity));
    case Notify(n) => InvNotify(s, n, capacity);
    case Subscribe =>
    case Attach => InvAttach(s, capacity);
    case SendCatchUp => InvSendCatchUp(s, capacity);
    case Receive => InvReceive(s, capacity);
    case Process => InvProcess(s, capacity);
    case Disconnect =>
  }

  lemma {:induction false} InvRun(s: State, steps: seq<Step>, capacity: nat)
    requires Inv(s) && IsRun(s, steps, capacity)
    ensures Inv(After(s, steps, capacity))
    decreases |steps|
  {
    if steps != [] {
      InvStep(s, steps[0], capacity);
      InvRun(Apply(s, steps[0], capacity), steps[1..], capacity);
    }
  }

  // ---- Safety of every run ----

  /**
   Whatever the interleaving of appends, broadcasts and subscriber steps, what a session
   delivers is strictly increasing, never below the requested sequence, and consists of
   committed log entries; so does what the agent processes, across all its sessions.
   */
  lemma DeliverySafe(steps: seq<Step>, capacity: nat)
    requires IsRun(Init(), steps, capacity)
    ensures var s := After(Init(), steps, capacity);
            && (forall u :: u in s.processed ==> Committed(s.log, u))
            && (s.session.Up? ==>
                  && StrictlyIncreasing(s.session.out)
                  && forall u :: u in s.session.out ==> s.session.from <= u.sequence && Committed(s.log, u))
  {
    InvRun(Init(), steps, capacity);
    var s := After(Init(), steps, capacity);
    if s.session.Up? {
      SessionOrdered(s);
      OutCommitted(s);
    }
  }

  lemma SessionOrdered(s: State)
    requires s.session.Up? && SessionOk(s)
    ensures StrictlyIncreasing(s.session.out)
    ensures forall u :: u in s.session.out ==> s.session.from <= u.sequence
  {
    var start := InitialLastSent(CatchUp(s), s.session.from);
    var live := Forwarded(start, s.bus[s.session.attached..s.session.pos]);
    ForwardedAbove(start, s.bus[s.session.attached..s.session.pos]);
    ForwardedIncreases(start, s.bus[s.session.attached..s.session.pos]);
    var sent := CatchUp(s)[..s.session.sent];
    assert forall i :: 0 <= i < |live| ==> live[i] in live;
    assert s.session.out == sent + live;
    if live != [] {
      assert s.session.pos != s.session.attached;
      assert sent == CatchUp(s);
    }
  }

  lemma OutIff(s: State, u: Update)
    requires s.session.Up? && SessionOk(s) && s.session.sent == |CatchUp(s)|
    ensures u in s.session.out <==>
              || (s.session.from <= u.sequence < s.session.seen && u.entry == s.log[u.sequence])
              || u in Forwarded(InitialLastSent(CatchUp(s), s.session.from), s.bus[s.session.attached..s.session.pos])
  {
    var catchup := CatchUp(s);
    assert catchup[..s.session.sent] == catchup;
    if s.session.from <= u.sequence < s.session.seen && u.entry == s.log[u.sequence] {
      assert catchup[u.sequence - s.session.from] == u;
    }
  }

  /**
   Exactly which entries a session that finished its catch-up has delivered: those in its
   snapshot, and those whose notification was heard after joining the channel, above the
   starting point, and before the notification of any later entry.
   */
  lemma DeliveredIff(steps: seq<Step>, capacity: nat, u: Update)
    requires IsRun(Init(), steps, capacity)
    requires var s := After(Init(), steps, capacity);
             s.session.Up? && s.session.seen <= |s.log| && s.session.sent == |CatchUp(s)|
    ensures var s := After(Init(), steps, capacity);
            && s.session.attached <= s.session.pos <= |s.bus|
            && var heard := s.bus[s.session.attached..s.session.pos];
            && var start := InitialLastSent(CatchUp(s), s.session.from);
            && (u in s.session.out <==>
                  || (s.session.from <= u.sequence < s.session.seen && u.entry == s.log[u.sequence])
                  || exists i: nat :: RecordAt(start, heard, i) && heard[i] == u)
  {
    InvRun(Init(), steps, capacity);
    var s := After(Init(), steps, capacity);
    OutIff(s, u);
    ForwardedIff(InitialLastSent(CatchUp(s), s.session.from), s.bus[s.session.attached..s.session.pos], u);
  }

  // ---- A subscriber that falls behind ----

  /** A receiver more than the channel's capacity behind is cut off; any other gets the next notification. */
  lemma ReceiveIs(s: State, capacity: nat)
    requires Enabled(s, Receive)
    ensures var up, up' := s.session, Apply(s, Receive, capacity).session;
            && up'.Up? && up'.taken == up.taken && up'.sent == up.sent
            && (up'.ended <==> |s.bus| - up.pos > capacity)
            && (up'.ended ==> up'.out == up.out && up'.pos == up.pos)
            && (!up'.ended ==> up'.pos == up.pos + 1)
            && (!up'.ended ==> up'.out == if s.bus[up.pos].sequence > up.last then up.out + [s.bus[up.pos]] else up.out)
  {
  }

  /** After that its stream gets nothing more: the agent can only take what is on it and reconnect. */
  lemma {:induction false} EndedStreamStays(s: State, steps: seq<Step>, capacity: nat)
    requires s.session.Up? && s.session.ended && IsRun(s, steps, capacity)
    requires forall i :: 0 <= i < |steps| ==> !steps[i].Disconnect?
    ensures var up := After(s, steps, capacity).session;
            up.Up? && up.ended && up.out == s.session.out
    decreases |steps|
  {
    if steps != [] {
      assert !steps[0].Disconnect?;
      assert forall i :: 0 <= i < |steps[1..]| ==> steps[1..][i] == steps[i + 1];
      EndedStreamStays(Apply(s, steps[0], capacity), steps[1..], capacity);
    }
  }

  // ---- Where a reconnect resumes ----

  /** What a session that has been taken nothing from yet starts at: the item processed last, still in the log. */
  ghost predicate ResumesAtLast(s: State) {
    && (forall u :: u in s.processed ==> u.sequence < |s.log|)
    && (s.session.Snapped? && s.processed != [] ==>
          s.session.from == s.processed[|s.processed| - 1].sequence < s.session.seen)
    && (s.session.Up? && s.session.taken == 0 && s.processed != [] ==>
          s.session.from == s.processed[|s.processed| - 1].sequence < s.session.seen)
  }

  lemma ResumesStep(s: State, step: Step, capacity: nat)
    requires Inv(s) && Enabled(s, step) && ResumesAtLast(s)
    ensures ResumesAtLast(Apply(s, step, capacity))
  {
    InvStep(s, step, capacity);
    if s.processed != [] {
      assert s.processed[|s.processed| - 1] in s.processed;
    }
  }

  lemma {:induction false} ResumesRun(s: State, steps: seq<Step>, capacity: nat)
    requires Inv(s) && IsRun(s, steps, capacity) && ResumesAtLast(s)
    ensures ResumesAtLast(After(s, steps, capacity))
    decreases |steps|
  {
    if steps != [] {
      InvStep(s, steps[0], capacity);
      ResumesStep(s, steps[0], capacity);
      ResumesRun(Apply(s, steps[0], capacity), steps[1..], capacity);
    }
  }

  /** In every run, the first item of a session is the one the agent processed last, once more. */
  lemma FirstItemRepeats(steps: seq<Step>, capacity: nat)
    requires IsRun(Init(), steps, capacity)
    requires var s := After(Init(), steps, capacity);
             s.session.Up? && s.session.taken == 0 && s.processed != [] && s.session.out != []
    ensures var s := After(Init(), steps, capacity);
            s.session.out[0] == s.processed[|s.processed| - 1]
  {
    InvRun(Init(), steps, capacity);
    ResumesRun(Init(), steps, capacity);
    var s := After(Init(), steps, capacity);
    assert s.processed[|s.processed| - 1] in s.processed;
    FirstOfStream(s);
  }

  lemma FirstOfStream(s: State)
    requires s.session.Up? && SessionOk(s) && s.session.from < s.session.seen && s.session.out != []
    ensures s.session.from < |s.log| && s.session.out[0] == Update(s.session.from, s.log[s.session.from])
  {
    var up := s.session;
    assert up.pos == up.attached ==> s.bus[up.attached..up.pos] == [];
    assert up.sent > 0 ==> up.out[0] == CatchUp(s)[0];
  }
}
