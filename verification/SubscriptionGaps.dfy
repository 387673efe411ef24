/**
 When the update stream has no gaps.

 A gap is possible in four ways, each shown by a run below. Without the first two
 (entries that bypass the local notifier, broadcasts out of commit order) the
 remaining two can be told from the subscription's own numbers, and a session is
 gap-free if and only if they rule them out.
 */
module SubscriptionGaps {
  import opened ConfigTypes
  import opened ConfigUpdates
  import opened Subscription

  /** Every entry is appended through this node and broadcast in commit order. */
  ghost predicate Orderly(s: State, step: Step) {
    !step.Replicate? && (step.Notify? ==> step.sequence == |s.bus|)
  }

  /** The channel so far is a prefix of the log. */
  ghost predicate BusIsPrefix(s: State) {
    |s.bus| <= |s.log| && s.bus == Slice(s.log, 0, |s.bus|)
  }

  lemma BusIsPrefixStep(s: State, step: Step, capacity: nat)
    requires BusIsPrefix(s) && Enabled(s, step) && Orderly(s, step)
    ensures BusIsPrefix(Apply(s, step, capacity))
  {
  }

  lemma {:induction false} BusIsPrefixRun(s: State, steps: seq<Step>, capacity: nat)
    requires BusIsPrefix(s) && IsRun(s, steps, capacity) && Throughout(s, steps, capacity, Orderly)
    ensures BusIsPrefix(After(s, steps, capacity))
    decreases |steps|
  {
    if steps != [] {
      BusIsPrefixStep(s, steps[0], capacity);
      BusIsPrefixRun(Apply(s, steps[0], capacity), steps[1..], capacity);
    }
  }

  /** The stream is the log from the requested sequence on, without a hole. */
  ghost predicate Contiguous(s: State)
    requires s.session.Up?
  {
    CountsFrom(s.session.from, s.session.out)
  }

  /**
   The session joined the channel before anything beyond its snapshot was broadcast, and
   it did not start from sequence 0 on an empty log. (In the latter case the duplicate
   filter starts at 0 and takes entry 0 for one already sent.)
   */
  predicate Timely(from: nat, seen: nat, attached: nat) {
    attached <= (if seen < from then from else seen) && (from > 0 || seen > 0)
  }

  /** The live part of an orderly session. */
  lemma LivePart(s: State)
    requires s.session.Up? && SessionOk(s) && BusIsPrefix(s)
    ensures var up := s.session;
            var start := InitialLastSent(CatchUp(s), up.from);
            && up.attached <= up.pos <= |s.bus| <= |s.log|
            && up.sent <= |CatchUp(s)|
            && up.out == CatchUp(s)[..up.sent]
                         + Slice(s.log, if up.attached <= start then start + 1 else up.attached, up.pos)
  {
    var up := s.session;
    assert s.bus[up.attached..up.pos] == Slice(s.log, up.attached, up.pos);
    ForwardedSlice(InitialLastSent(CatchUp(s), up.from), s.log, up.attached, up.pos);
  }

  lemma TimelyIsContiguous(s: State)
    requires s.session.Up? && SessionOk(s) && BusIsPrefix(s)
    requires Timely(s.session.from, s.session.seen, s.session.attached)
    ensures Contiguous(s)
  {
    LivePart(s);
    var up := s.session;
    if up.sent < |CatchUp(s)| {
      assert up.out == CatchUp(s)[..up.sent];
    }
  }

  lemma LateIsNotContiguous(s: State)
    requires s.session.Up? && SessionOk(s) && BusIsPrefix(s)
    requires |s.session.out| > |CatchUp(s)|
    requires !Timely(s.session.from, s.session.seen, s.session.attached)
    ensures !Contiguous(s)
  {
    LivePart(s);
    var up, n := s.session, |CatchUp(s)|;
    var start := InitialLastSent(CatchUp(s), up.from);
    var first := if up.attached <= start then start + 1 else up.attached;
    assert up.sent == n;
    assert up.out[n] == Slice(s.log, first, up.pos)[0];
    assert up.out[n].sequence == first != up.from + n;
  }

  /**
   In every orderly run, a session that has delivered a live item is gap-free exactly when
   it was timely.
   */
  lemma ContiguousIffTimely(steps: seq<Step>, capacity: nat)
    requires IsRun(Init(), steps, capacity) && Throughout(Init(), steps, capacity, Orderly)
    requires var s := After(Init(), steps, capacity);
             s.session.Up? && s.session.seen <= |s.log| && |s.session.out| > |CatchUp(s)|
    ensures var s := After(Init(), steps, capacity);
            Contiguous(s) <==> Timely(s.session.from, s.session.seen, s.session.attached)
  {
    InvRun(Init(), steps, capacity);
    BusIsPrefixRun(Init(), steps, capacity);
    var s := After(Init(), steps, capacity);
    if Timely(s.session.from, s.session.seen, s.session.attached) {
      TimelyIsContiguous(s);
    } else {
      LateIsNotContiguous(s);
    }
  }

  /** What the session has heard since it joined the channel. */
  function SinceJoin(s: State): seq<Update>
    requires s.session.Up? && s.session.attached <= s.session.pos <= |s.bus|
  {
    s.bus[s.session.attached..s.session.pos]
  }

  lemma SessionContiguousIff(s: State)
    requires s.session.Up? && SessionOk(s)
    ensures Contiguous(s) <==>
              && InOrder(InitialLastSent(CatchUp(s), s.session.from), SinceJoin(s))
              && (s.session.from == s.session.seen == 0 ==> forall u :: u in SinceJoin(s) ==> u.sequence == 0)
  {
    var up, catchup, heard := s.session, CatchUp(s), SinceJoin(s);
    var start := InitialLastSent(catchup, up.from);
    CountsIffInOrder(start, heard);
    OutCounts(up.from, catchup[..up.sent], Forwarded(start, heard));
    if up.sent < |catchup| {
      assert heard == [];
    } else if up.from == up.seen == 0 {
      EmptyStart(heard);
    } else {
      assert up.from + |catchup| == start + 1;
    }
  }

  lemma OutCounts(from: nat, caught: seq<Update>, live: seq<Update>)
    requires CountsFrom(from, caught)
    ensures CountsFrom(from, caught + live) <==> CountsFrom(from + |caught|, live)
  {
    assert forall i :: 0 <= i < |live| ==> (caught + live)[|caught| + i] == live[i];
  }

  /** A session that starts on an empty journal forwards nothing exactly when all it hears is entry 0. */
  lemma EmptyStart(heard: seq<Update>)
    ensures CountsFrom(0, Forwarded(0, heard)) <==> forall u :: u in heard ==> u.sequence == 0
    ensures (forall u :: u in heard ==> u.sequence == 0) ==> InOrder(0, heard)
  {
    var live := Forwarded(0, heard);
    ForwardedAbove(0, heard);
    LastAfterBounds(0, heard);
    if live != [] {
      assert live[0] in live && live[0].sequence != 0;
    }
    if forall u :: u in heard ==> u.sequence == 0 {
      ForwardedNothing(0, heard);
    }
  }

  /**
   In every run whatsoever, a session is gap-free exactly when, of what it heard since it
   joined, nothing came before its predecessor, and, if it started on an empty journal, it
   has heard of nothing but entry 0.
   */
  lemma ContiguousIff(steps: seq<Step>, capacity: nat)
    requires IsRun(Init(), steps, capacity) && After(Init(), steps, capacity).session.Up?
    ensures var s := After(Init(), steps, capacity);
            && s.session.seen <= |s.log| && s.session.attached <= s.session.pos <= |s.bus|
            && (Contiguous(s) <==>
                  && InOrder(InitialLastSent(CatchUp(s), s.session.from), SinceJoin(s))
                  && (s.session.from == s.session.seen == 0 ==> forall u :: u in SinceJoin(s) ==> u.sequence == 0))
  {
    InvRun(Init(), steps, capacity);
    SessionContiguousIff(After(Init(), steps, capacity));
  }

  // ---- The agent across reconnects ----

  /** Orderly, and every session joins the channel in time. */
  ghost predicate Prompt(s: State, step: Step) {
    && Orderly(s, step)
    && (step.Attach? && s.session.Snapped? ==> Timely(s.session.from, s.session.seen, |s.bus|))
  }

  /** From entry 0 on, each item repeats the one before it or is its successor. */
  ghost predicate Steady(us: seq<Update>) {
    && (us != [] ==> us[0].sequence == 0)
    && forall i :: 0 < i < |us| ==> us[i].sequence == us[i - 1].sequence || us[i].sequence == us[i - 1].sequence + 1
  }

  ghost predicate PromptInv(s: State) {
    && Inv(s) && BusIsPrefix(s) && Steady(s.processed)
    && (s.session.Up? ==> Timely(s.session.from, s.session.seen, s.session.attached))
  }

  lemma SteadyProcess(s: State, capacity: nat)
    requires PromptInv(s) && Enabled(s, Process)
    ensures Steady(Apply(s, Process, capacity).processed)
  {
    TimelyIsContiguous(s);
    var up, us := s.session, s.processed;
    var u := up.out[up.taken];
    assert u.sequence == up.from + up.taken;
    if up.taken > 0 {
      assert up.out[up.taken - 1].sequence == up.from + up.taken - 1 == s.agentLast;
    }
    assert us != [] ==> u.sequence == us[|us| - 1].sequence || u.sequence == us[|us| - 1].sequence + 1;
  }

  lemma PromptStep(s: State, step: Step, capacity: nat)
    requires PromptInv(s) && Enabled(s, step) && Prompt(s, step)
    ensures PromptInv(Apply(s, step, capacity))
  {
    InvStep(s, step, capacity);
    BusIsPrefixStep(s, step, capacity);
    TimelyStep(s, step, capacity);
    if step.Process? {
      SteadyProcess(s, capacity);
    } else {
      assert Apply(s, step, capacity).processed == s.processed;
    }
  }

  lemma TimelyStep(s: State, step: Step, capacity: nat)
    requires Enabled(s, step) && Prompt(s, step)
    requires s.session.Up? ==> Timely(s.session.from, s.session.seen, s.session.attached)
    ensures var up := Apply(s, step, capacity).session;
            up.Up? ==> Timely(up.from, up.seen, up.attached)
  {
  }

  lemma {:induction false} PromptRun(s: State, steps: seq<Step>, capacity: nat)
    requires PromptInv(s) && IsRun(s, steps, capacity) && Throughout(s, steps, capacity, Prompt)
    ensures PromptInv(After(s, steps, capacity))
    decreases |steps|
  {
    if steps != [] {
      PromptStep(s, steps[0], capacity);
      PromptRun(Apply(s, steps[0], capacity), steps[1..], capacity);
    }
  }

  /** The items with immediate repetitions dropped. */
  function Dedup(us: seq<Update>): seq<Update> {
    if us == [] then []
    else
      var n := |us| - 1;
      if n > 0 && us[n] == us[n - 1] then Dedup(us[..n]) else Dedup(us[..n]) + [us[n]]
  }

  lemma SliceSnoc(log: seq<ConfigEntry>, n: nat)
    requires n < |log|
    ensures Slice(log, 0, n + 1) == Slice(log, 0, n) + [Update(n, log[n])]
  {
  }

  lemma {:induction false} SteadyCovers(log: seq<ConfigEntry>, us: seq<Update>)
    requires us != [] && Steady(us) && forall u :: u in us ==> Committed(log, u)
    ensures us[|us| - 1].sequence < |log|
    ensures Dedup(us) == Slice(log, 0, us[|us| - 1].sequence + 1)
    decreases |us|
  {
    var n := |us| - 1;
    assert us[n] in us;
    if n > 0 {
      var front := us[..n];
      assert forall u :: u in front ==> u in us;
      assert Steady(front);
      SteadyCovers(log, front);
      assert front[|front| - 1] == us[n - 1] && us[n - 1] in us;
      SliceSnoc(log, us[n].sequence);
    } else {
      assert us[..n] == [];
    }
  }

  /**
   At-least-once delivery over any number of reconnects: if every session joined in time,
   what the agent has processed is, up to immediate repetitions, exactly the log from
   entry 0 to its own position.
   */
  lemma AtLeastOnce(steps: seq<Step>, capacity: nat)
    requires IsRun(Init(), steps, capacity) && Throughout(Init(), steps, capacity, Prompt)
    ensures var s := After(Init(), steps, capacity);
            s.processed != [] ==>
              s.agentLast < |s.log| && Dedup(s.processed) == Slice(s.log, 0, s.agentLast + 1)
  {
    PromptRun(Init(), steps, capacity);
    var s := After(Init(), steps, capacity);
    if s.processed != [] {
      SteadyCovers(s.log, s.processed);
    }
  }

  // ---- A gap is never repaired ----

  /** Everything processed after the first `base` items lies at or above `n`, and so does the agent. */
  ghost predicate Beyond(s: State, n: nat, base: nat) {
    && n <= s.agentLast
    && base <= |s.processed|
    && forall i :: base <= i < |s.processed| ==> n <= s.processed[i].sequence
  }

  lemma BeyondStep(s: State, step: Step, capacity: nat, n: nat, base: nat)
    requires Inv(s) && Enabled(s, step) && Beyond(s, n, base)
    ensures Beyond(Apply(s, step, capacity), n, base)
  {
    if step.Process? {
      SessionOrdered(s);
      assert s.session.out[s.session.taken] in s.session.out;
    }
  }

  lemma {:induction false} BeyondRun(s: State, steps: seq<Step>, capacity: nat, n: nat, base: nat)
    requires Inv(s) && IsRun(s, steps, capacity) && Beyond(s, n, base)
    ensures Beyond(After(s, steps, capacity), n, base)
    decreases |steps|
  {
    if steps != [] {
      InvStep(s, steps[0], capacity);
      BeyondStep(s, steps[0], capacity, n, base);
      BeyondRun(Apply(s, steps[0], capacity), steps[1..], capacity, n, base);
    }
  }

  /**
   Once the agent's position has passed an entry it has not processed, whether in a session
   or between two, no continuation of the run, orderly or not, ever gives it that entry.
   */
  lemma MissedForever(steps: seq<Step>, more: seq<Step>, capacity: nat, missed: nat)
    requires IsRun(Init(), steps, capacity)
    requires IsRun(After(Init(), steps, capacity), more, capacity)
    requires var s := After(Init(), steps, capacity);
             && missed < s.agentLast
             && forall u :: u in s.processed ==> u.sequence != missed
    ensures forall u :: u in After(After(Init(), steps, capacity), more, capacity).processed ==> u.sequence != missed
  {
    var s := After(Init(), steps, capacity);
    InvRun(Init(), steps, capacity);
    BeyondRun(s, more, capacity, s.agentLast, |s.processed|);
    ProcessedGrows(s, more, capacity);
    var s' := After(s, more, capacity);
    forall u | u in s'.processed ensures u.sequence != missed {
      var i :| 0 <= i < |s'.processed| && s'.processed[i] == u;
      if i < |s.processed| {
        assert s.processed[i] in s.processed;
      }
    }
  }

  lemma {:induction false} ProcessedGrows(s: State, steps: seq<Step>, capacity: nat)
    requires IsRun(s, steps, capacity)
    ensures s.processed <= After(s, steps, capacity).processed
    decreases |steps|
  {
    if steps != [] {
      ProcessedGrows(Apply(s, steps[0], capacity), steps[1..], capacity);
    }
  }

  // ---- The four kinds of gap ----

  lemma {:induction false} Extend(s: State, steps: seq<Step>, capacity: nat, step: Step)
    requires IsRun(s, steps, capacity) && Enabled(After(s, steps, capacity), step)
    ensures IsRun(s, steps + [step], capacity)
    ensures After(s, steps + [step], capacity) == Apply(After(s, steps, capacity), step, capacity)
    decreases |steps|
  {
    if steps == [] {
      assert steps + [step] == [step];
      assert [step][1..] == [];
    } else {
      assert (steps + [step])[1..] == steps[1..] + [step];
      Extend(Apply(s, steps[0], capacity), steps[1..], capacity, step);
    }
  }

  lemma {:induction false} ExtendAll(s: State, steps: seq<Step>, capacity: nat, step: Step, p: (State, Step) -> bool)
    requires IsRun(s, steps, capacity) && Enabled(After(s, steps, capacity), step)
    requires Throughout(s, steps, capacity, p) && p(After(s, steps, capacity), step)
    ensures IsRun(s, steps + [step], capacity) && Throughout(s, steps + [step], capacity, p)
    decreases |steps|
  {
    Extend(s, steps, capacity, step);
    if steps == [] {
      assert steps + [step] == [step];
      assert [step][1..] == [];
    } else {
      assert (steps + [step])[1..] == steps[1..] + [step];
      ExtendAll(Apply(s, steps[0], capacity), steps[1..], capacity, step, p);
    }
  }

  ghost predicate Anything(s: State, step: Step) {
    true
  }

  /** The state a run of the given steps leads to, one step at a time. */
  lemma Play(steps: seq<Step>, step: Step, s: State, p: (State, Step) -> bool) returns (steps': seq<Step>, s': State)
    requires IsRun(Init(), steps, 1024) && Throughout(Init(), steps, 1024, p)
    requires s == After(Init(), steps, 1024) && Enabled(s, step) && p(s, step)
    ensures IsRun(Init(), steps', 1024) && Throughout(Init(), steps', 1024, p)
    ensures s' == After(Init(), steps', 1024) == Apply(s, step, 1024)
  {
    steps' := steps + [step];
    Extend(Init(), steps, 1024, step);
    ExtendAll(Init(), steps, 1024, step, p);
    s' := Apply(s, step, 1024);
  }

  /** A session joined on an empty journal, with two entries waiting in the channel. */
  lemma JoinedBeforeTwo(e: ConfigEntry) returns (steps: seq<Step>, s: State)
    ensures IsRun(Init(), steps, 1024) && Throughout(Init(), steps, 1024, Orderly)
    ensures s == After(Init(), steps, 1024)
    ensures var e0, e1 := e.(sequence := 0), e.(sequence := 1);
            s == State([e0, e1], {}, [Update(0, e0), Update(1, e1)], Up(0, 0, 0, 0, 0, 0, [], 0, false), 0, [])
  {
    steps, s := [], Init();
    steps, s := Play(steps, Subscribe, s, Orderly);
    steps, s := Play(steps, Attach, s, Orderly);
    steps, s := Play(steps, Append(e), s, Orderly);
    steps, s := Play(steps, Notify(0), s, Orderly);
    steps, s := Play(steps, Append(e), s, Orderly);
    steps, s := Play(steps, Notify(1), s, Orderly);
    var e0, e1 := e.(sequence := 0), e.(sequence := 1);
    assert s.log == [e0, e1] && s.unsent == {} && s.bus == [Update(0, e0), Update(1, e1)];
  }

  /**
   An agent that subscribes to an empty journal loses entry 0, in a fully orderly run, and
   by `MissedForever` loses it for good.
   */
  lemma GapOnEmptyJournal(e: ConfigEntry) returns (steps: seq<Step>, s: State)
    ensures IsRun(Init(), steps, 1024) && Throughout(Init(), steps, 1024, Orderly)
    ensures s == After(Init(), steps, 1024)
    ensures |s.log| == 2 && s.session.Down? && s.agentLast == 1
    ensures forall u :: u in s.processed ==> u.sequence != 0
  {
    steps, s := JoinedBeforeTwo(e);
    steps, s := Play(steps, Receive, s, Orderly);
    steps, s := Play(steps, Receive, s, Orderly);
    steps, s := Play(steps, Process, s, Orderly);
    steps, s := Play(steps, Disconnect, s, Orderly);
  }

  /** A session that read a log of one entry and joined after the second was broadcast. */
  lemma JoinedTooLate(e: ConfigEntry) returns (steps: seq<Step>, s: State)
    ensures IsRun(Init(), steps, 1024) && Throughout(Init(), steps, 1024, Orderly)
    ensures s == After(Init(), steps, 1024)
    ensures var e0, e1 := e.(sequence := 0), e.(sequence := 1);
            s == State([e0, e1], {}, [Update(0, e0), Update(1, e1)], Up(0, 1, 2, 0, 2, 0, [], 0, false), 0, [])
  {
    steps, s := [], Init();
    steps, s := Play(steps, Append(e), s, Orderly);
    steps, s := Play(steps, Notify(0), s, Orderly);
    steps, s := Play(steps, Subscribe, s, Orderly);
    steps, s := Play(steps, Append(e), s, Orderly);
    steps, s := Play(steps, Notify(1), s, Orderly);
    steps, s := Play(steps, Attach, s, Orderly);
    var e0, e1 := e.(sequence := 0), e.(sequence := 1);
    assert s.log == [e0, e1] && s.unsent == {} && s.bus == [Update(0, e0), Update(1, e1)];
  }

  /** An entry appended and broadcast between the snapshot and the join is lost in an orderly run. */
  lemma GapBetweenSnapshotAndJoin(e: ConfigEntry) returns (steps: seq<Step>, s: State)
    ensures IsRun(Init(), steps, 1024) && Throughout(Init(), steps, 1024, Orderly)
    ensures s == After(Init(), steps, 1024)
    ensures s.session.Up? && s.session.from == 0 && s.session.seen == 1 && !Contiguous(s)
  {
    steps, s := JoinedTooLate(e);
    steps, s := Play(steps, SendCatchUp, s, Orderly);
    steps, s := Play(steps, Append(e), s, Orderly);
    steps, s := Play(steps, Notify(2), s, Orderly);
    steps, s := Play(steps, Receive, s, Orderly);
    assert s.session.out[1].sequence == 2;
  }

  /** A session that joined in time and has caught up on a log of one entry. */
  lemma CaughtUpOnOne(e: ConfigEntry) returns (steps: seq<Step>, s: State)
    ensures IsRun(Init(), steps, 1024) && Throughout(Init(), steps, 1024, Anything)
    ensures s == After(Init(), steps, 1024)
    ensures var e0 := e.(sequence := 0);
            s == State([e0], {}, [Update(0, e0)], Up(0, 1, 1, 1, 1, 0, [Update(0, e0)], 0, false), 0, [])
  {
    steps, s := [], Init();
    steps, s := Play(steps, Append(e), s, Anything);
    steps, s := Play(steps, Notify(0), s, Anything);
    steps, s := Play(steps, Subscribe, s, Anything);
    steps, s := Play(steps, Attach, s, Anything);
    steps, s := Play(steps, SendCatchUp, s, Anything);
    var e0 := e.(sequence := 0);
    assert s.log == [e0] && s.unsent == {} && s.bus == [Update(0, e0)];
    assert s.session.out == [Update(0, e0)];
  }

  /** A later entry broadcast first hides an earlier one, though the session joined in time. */
  lemma GapFromBroadcastOrder(e: ConfigEntry) returns (steps: seq<Step>, s: State)
    ensures IsRun(Init(), steps, 1024) && s == After(Init(), steps, 1024)
    ensures s.session.Up? && Timely(s.session.from, s.session.seen, s.session.attached) && !Contiguous(s)
    ensures s.unsent == {}
  {
    steps, s := CaughtUpOnOne(e);
    steps, s := Play(steps, Append(e), s, Anything);
    steps, s := Play(steps, Append(e), s, Anything);
    steps, s := Play(steps, Notify(2), s, Anything);
    steps, s := Play(steps, Notify(1), s, Anything);
    steps, s := Play(steps, Receive, s, Anything);
    assert s.session.out[1].sequence == 2;
  }

  /** An entry that arrives by replication is not pushed to this node's subscribers. */
  lemma GapFromReplication(e: ConfigEntry) returns (steps: seq<Step>, s: State)
    ensures IsRun(Init(), steps, 1024) && s == After(Init(), steps, 1024)
    ensures s.session.Up? && Timely(s.session.from, s.session.seen, s.session.attached) && !Contiguous(s)
    ensures s.unsent == {}
  {
    steps, s := CaughtUpOnOne(e);
    steps, s := Play(steps, Replicate(e), s, Anything);
    steps, s := Play(steps, Append(e), s, Anything);
    steps, s := Play(steps, Notify(2), s, Anything);
    steps, s := Play(steps, Receive, s, Anything);
    assert s.session.out[1].sequence == 2;
  }
}
