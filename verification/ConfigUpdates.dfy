/**
 One subscriber's view of the config update stream: the catch-up list read from the log
 and the live loop that forwards broadcast notifications.
 */
module ConfigUpdates {
  import opened ConfigTypes

  /** A stream item; the serialized payload is represented by the entry itself. */
  datatype Update = Update(sequence: nat, entry: ConfigEntry)

  /** The updates for the log positions `lo..hi`, in order. */
  function Slice(log: seq<ConfigEntry>, lo: nat, hi: nat): (r: seq<Update>)
    requires hi <= |log|
    ensures |r| == if lo <= hi then hi - lo else 0
    ensures forall i :: 0 <= i < |r| ==> r[i] == Update(lo + i, log[lo + i])
  {
    if lo < hi then seq(hi - lo, i requires 0 <= i < hi - lo => Update(lo + i, log[lo + i])) else []
  }

  /** What `last_sent_seq` is set to before the live loop starts. */
  function InitialLastSent(catchup: seq<Update>, from: nat): nat {
    if catchup != [] then catchup[|catchup| - 1].sequence
    else if from == 0 then 0 else from - 1
  }

  /** `last_sent_seq` after the live loop has seen `heard`. */
  function LastAfter(last: nat, heard: seq<Update>): nat {
    if heard == [] then last
    else
      var before := LastAfter(last, heard[..|heard| - 1]);
      var u := heard[|heard| - 1];
      if u.sequence <= before then before else u.sequence
  }

  /** What the live loop forwards out of `heard`: each item above everything sent before it. */
  function Forwarded(last: nat, heard: seq<Update>): seq<Update> {
    if heard == [] then []
    else
      var u := heard[|heard| - 1];
      var before := Forwarded(last, heard[..|heard| - 1]);
      if u.sequence <= LastAfter(last, heard[..|heard| - 1]) then before else before + [u]
  }

  /** What `recv` returns on the broadcast receiver. */
  datatype Recv = Heard(update: Update) | Lagged | Closed

  /** The updates heard before the receiver first reports a lag or a closed channel. */
  function HeardPrefix(results: seq<Recv>): seq<Update> {
    if results == [] || !results[0].Heard? then [] else [results[0].update] + HeardPrefix(results[1..])
  }

  lemma {:induction false} HeardPrefixExtends(results: seq<Recv>, i: nat)
    requires i < |results| && results[i].Heard?
    requires forall j :: 0 <= j < i ==> results[j].Heard?
    ensures |HeardPrefix(results)| > i
    ensures HeardPrefix(results)[i] == results[i].update
  {
    if i > 0 {
      HeardPrefixExtends(results[1..], i - 1);
    }
  }

  lemma {:induction false} HeardPrefixStops(results: seq<Recv>, i: nat)
    requires i <= |results| && (i == |results| || !results[i].Heard?)
    requires forall j :: 0 <= j < i ==> results[j].Heard?
    ensures |HeardPrefix(results)| == i
  {
    if i > 0 {
      HeardPrefixStops(results[1..], i - 1);
    }
  }

  /** Phase 2 of `subscribe_config_updates`, run until the receiver fails or nothing more comes. */
  method LiveLoop(results: seq<Recv>, initialLast: nat) returns (sent: seq<Update>, last: nat)
    ensures sent == Forwarded(initialLast, HeardPrefix(results))
    ensures last == LastAfter(initialLast, HeardPrefix(results))
  {
    sent := [];
    last := initialLast;
    var i := 0;
    while i < |results|
      invariant 0 <= i <= |results|
      invariant forall j :: 0 <= j < i ==> results[j].Heard?
      invariant |HeardPrefix(results)| >= i
      invariant sent == Forwarded(initialLast, HeardPrefix(results)[..i])
      invariant last == LastAfter(initialLast, HeardPrefix(results)[..i])
    {
      match results[i] {
        case Heard(update) =>
          HeardPrefixExtends(results, i);
          assert HeardPrefix(results)[..i + 1][..i] == HeardPrefix(results)[..i];
          if update.sequence > last {
            last := update.sequence;
            sent := sent + [update];
          }
          i := i + 1;
        case Lagged =>
          break;
        case Closed =>
          break;
      }
    }
    HeardPrefixStops(results, i);
    assert HeardPrefix(results)[..i] == HeardPrefix(results);
  }

  // ---- What the loop forwards ----

  lemma HearingOneMore(last: nat, heard: seq<Update>, u: Update)
    ensures Forwarded(last, heard + [u])
         == if u.sequence <= LastAfter(last, heard) then Forwarded(last, heard) else Forwarded(last, heard) + [u]
    ensures LastAfter(last, heard + [u])
         == if u.sequence <= LastAfter(last, heard) then LastAfter(last, heard) else u.sequence
  {
    assert (heard + [u])[..|heard|] == heard;
  }

  predicate StrictlyIncreasing(us: seq<Update>) {
    forall i, j :: 0 <= i < j < |us| ==> us[i].sequence < us[j].sequence
  }

  /** The last value bounds everything seen and never falls. */
  lemma {:induction false} LastAfterBounds(last: nat, heard: seq<Update>)
    ensures last <= LastAfter(last, heard)
    ensures forall u :: u in heard ==> u.sequence <= LastAfter(last, heard)
    ensures LastAfter(last, heard) == last || exists u :: u in heard && u.sequence == LastAfter(last, heard)
  {
    if heard != [] {
      var n := |heard| - 1;
      LastAfterBounds(last, heard[..n]);
      assert heard == heard[..n] + [heard[n]];
    }
  }

  /** What is forwarded lies above the start, was heard, and ends with the last value. */
  lemma {:induction false} ForwardedAbove(last: nat, heard: seq<Update>)
    ensures forall u :: u in Forwarded(last, heard) ==> u in heard && last < u.sequence <= LastAfter(last, heard)
    ensures LastAfter(last, heard) == InitialLastSent(Forwarded(last, heard), last + 1)
  {
    if heard != [] {
      var n := |heard| - 1;
      ForwardedAbove(last, heard[..n]);
      LastAfterBounds(last, heard[..n]);
      assert heard == heard[..n] + [heard[n]];
    }
  }

  /** Whatever is heard, what is forwarded is strictly increasing. */
  lemma {:induction false} ForwardedIncreases(last: nat, heard: seq<Update>)
    ensures StrictlyIncreasing(Forwarded(last, heard))
  {
    if heard != [] {
      var front := heard[..|heard| - 1];
      ForwardedIncreases(last, front);
      ForwardedAbove(last, front);
      var before := Forwarded(last, front);
      assert forall i :: 0 <= i < |before| ==> before[i] in before;
    }
  }

  /** `heard[i]` is higher than the starting point and than everything heard before it. */
  ghost predicate RecordAt(last: nat, heard: seq<Update>, i: nat) {
    i < |heard| && heard[i].sequence > last && forall j :: 0 <= j < i ==> heard[j].sequence < heard[i].sequence
  }

  /** Hearing one more item keeps the records there were and adds that item if it tops them all. */
  lemma RecordsOneMore(last: nat, heard: seq<Update>, v: Update, i: nat)
    ensures i < |heard| ==> (RecordAt(last, heard + [v], i) <==> RecordAt(last, heard, i))
    ensures RecordAt(last, heard + [v], |heard|) <==> v.sequence > LastAfter(last, heard)
  {
    LastAfterBounds(last, heard);
    var all := heard + [v];
    assert forall j :: 0 <= j < |heard| ==> all[j] == heard[j] && heard[j] in heard;
  }

  /** Exactly which notifications reach the client: the running maxima of what is heard. */
  lemma {:induction false} ForwardedIff(last: nat, heard: seq<Update>, u: Update)
    ensures u in Forwarded(last, heard) <==> exists i: nat :: RecordAt(last, heard, i) && heard[i] == u
  {
    if heard != [] {
      var n := |heard| - 1;
      var front, v := heard[..n], heard[n];
      assert heard == front + [v];
      ForwardedIff(last, front, u);
      HearingOneMore(last, front, v);
      forall i: nat
        ensures i < n ==> (RecordAt(last, heard, i) && heard[i] == u <==> RecordAt(last, front, i) && front[i] == u)
        ensures RecordAt(last, heard, n) <==> v.sequence > LastAfter(last, front)
      {
        RecordsOneMore(last, front, v, i);
      }
      if u in Forwarded(last, front) {
        var i: nat :| RecordAt(last, front, i) && front[i] == u;
        assert RecordAt(last, heard, i) && heard[i] == u;
      }
    }
  }

  /** Nothing is forwarded of a stretch of the log at or below the starting point. */
  lemma {:induction false} ForwardedNothing(last: nat, heard: seq<Update>)
    requires forall u :: u in heard ==> u.sequence <= last
    ensures Forwarded(last, heard) == [] && LastAfter(last, heard) == last
  {
    if heard != [] {
      var n := |heard| - 1;
      assert heard[n] in heard;
      ForwardedNothing(last, heard[..n]);
    }
  }

  /** Everything is forwarded of an increasing stretch above it. */
  lemma {:induction false} ForwardedEverything(last: nat, heard: seq<Update>)
    requires StrictlyIncreasing(heard) && forall u :: u in heard ==> last < u.sequence
    ensures Forwarded(last, heard) == heard
    ensures LastAfter(last, heard) == InitialLastSent(heard, last + 1)
  {
    if heard != [] {
      var n := |heard| - 1;
      var front, u := heard[..n], heard[n];
      assert u in heard;
      ForwardedEverything(last, front);
      assert LastAfter(last, front) < u.sequence by {
        if front != [] { assert front[n - 1] == heard[n - 1]; }
      }
      assert heard == front + [u];
      HearingOneMore(last, front, u);
    }
  }

  /** The loop can be run in two goes. */
  lemma {:induction false} ForwardedAppend(last: nat, a: seq<Update>, b: seq<Update>)
    ensures LastAfter(last, a + b) == LastAfter(LastAfter(last, a), b)
    ensures Forwarded(last, a + b) == Forwarded(last, a) + Forwarded(LastAfter(last, a), b)
    decreases |b|
  {
    if b == [] {
      assert a + b == a;
    } else {
      var front, u := b[..|b| - 1], b[|b| - 1];
      assert b == front + [u];
      assert a + b == (a + front) + [u];
      ForwardedAppend(last, a, front);
      HearingOneMore(last, a + front, u);
      HearingOneMore(LastAfter(last, a), front, u);
    }
  }

  /** When the log itself is heard in order, everything above the starting point is forwarded. */
  lemma ForwardedSlice(last: nat, log: seq<ConfigEntry>, lo: nat, hi: nat)
    requires lo <= hi <= |log|
    ensures Forwarded(last, Slice(log, lo, hi)) == Slice(log, if lo <= last then last + 1 else lo, hi)
  {
    var first := if lo <= last then last + 1 else lo;
    var cut := if first < hi then first else hi;
    var skipped, rest := Slice(log, lo, cut), Slice(log, cut, hi);
    assert Slice(log, lo, hi) == skipped + rest;
    assert Slice(log, first, hi) == rest;
    ForwardedNothing(last, skipped);
    ForwardedEverything(last, rest);
    ForwardedAppend(last, skipped, rest);
  }

  ghost predicate HasNumber(us: seq<Update>, n: int) {
    exists v :: v in us && v.sequence == n
  }

  /** Each notification heard comes next after `start`, or after that of its predecessor. */
  ghost predicate InOrder(start: nat, heard: seq<Update>) {
    forall i :: 0 <= i < |heard| ==> Preceded(start, heard[..i], heard[i])
  }

  ghost predicate Preceded(start: nat, before: seq<Update>, u: Update) {
    u.sequence <= start + 1 || HasNumber(before, u.sequence - 1)
  }

  /** `us` counts up from `first`. */
  ghost predicate CountsFrom(first: nat, us: seq<Update>) {
    forall i :: 0 <= i < |us| ==> us[i].sequence == first + i
  }

  lemma InOrderOneMore(start: nat, front: seq<Update>, u: Update)
    ensures InOrder(start, front + [u]) <==> InOrder(start, front) && Preceded(start, front, u)
  {
    var heard := front + [u];
    assert forall i :: 0 <= i <= |front| ==> heard[..i] == front[..i];
    assert front[..|front|] == front && heard[|front|] == u;
    if InOrder(start, heard) {
      forall i | 0 <= i < |front| ensures Preceded(start, front[..i], front[i]) {
        assert Preceded(start, heard[..i], heard[i]);
      }
      assert Preceded(start, heard[..|front|], heard[|front|]);
    }
  }

  /** A contiguous live part reaches from the start to the last value, so all in between was heard. */
  lemma CountsToLast(start: nat, heard: seq<Update>, n: int)
    requires CountsFrom(start + 1, Forwarded(start, heard))
    ensures LastAfter(start, heard) == start + |Forwarded(start, heard)|
    ensures start < n <= LastAfter(start, heard) ==> HasNumber(heard, n)
  {
    var sent := Forwarded(start, heard);
    ForwardedAbove(start, heard);
    if start < n <= LastAfter(start, heard) {
      assert sent[n - start - 1] in sent && sent[n - start - 1].sequence == n;
    }
  }

  lemma CountsOneMore(start: nat, front: seq<Update>, u: Update)
    ensures CountsFrom(start + 1, Forwarded(start, front + [u])) <==>
              CountsFrom(start + 1, Forwarded(start, front)) && Preceded(start, front, u)
  {
    var before := Forwarded(start, front);
    HearingOneMore(start, front, u);
    LastAfterBounds(start, front);
    if CountsFrom(start + 1, before) {
      CountsToLast(start, front, u.sequence - 1);
      assert (before + [u])[|before|] == u;
    } else {
      var i :| 0 <= i < |before| && before[i].sequence != start + 1 + i;
      assert (before + [u])[i] == before[i];
    }
  }

  /** The live part has no hole if and only if nothing was heard before its predecessor. */
  lemma {:induction false} CountsIffInOrder(start: nat, heard: seq<Update>)
    ensures CountsFrom(start + 1, Forwarded(start, heard)) <==> InOrder(start, heard)
  {
    if heard != [] {
      var front, u := heard[..|heard| - 1], heard[|heard| - 1];
      assert heard == front + [u];
      CountsIffInOrder(start, front);
      InOrderOneMore(start, front, u);
      CountsOneMore(start, front, u);
    }
  }

  /** What has been put on the stream after `sent` catch-up items and after hearing `heard`. */
  ghost predicate StreamOk(catchup: seq<Update>, from: nat, sent: nat, heard: seq<Update>, last: nat, out: seq<Update>) {
    && sent <= |catchup|
    && out == catchup[..sent] + Forwarded(InitialLastSent(catchup, from), heard)
    && last == LastAfter(InitialLastSent(catchup, from), heard)
  }

  /** One more notification, handled as the live loop does. */
  lemma StreamHears(catchup: seq<Update>, from: nat, sent: nat, heard: seq<Update>, last: nat, out: seq<Update>, u: Update)
    requires StreamOk(catchup, from, sent, heard, last, out)
    ensures if u.sequence <= last then StreamOk(catchup, from, sent, heard + [u], last, out)
            else StreamOk(catchup, from, sent, heard + [u], u.sequence, out + [u])
  {
    HearingOneMore(InitialLastSent(catchup, from), heard, u);
  }

  /** One more catch-up item, before anything was heard. */
  lemma StreamCatchesUp(catchup: seq<Update>, from: nat, sent: nat, last: nat, out: seq<Update>)
    requires StreamOk(catchup, from, sent, [], last, out) && sent < |catchup|
    ensures StreamOk(catchup, from, sent + 1, [], last, out + [catchup[sent]])
  {
    assert catchup[..sent + 1] == catchup[..sent] + [catchup[sent]];
  }
}
