/** The journal's append-only entry log: the `AppendEntry` command of the Raft state machine. */
module Journal {
  import opened ConfigTypes

  const TTL_MIN_SECONDS: nat := 900
  const TTL_MAX_SECONDS: nat := 864000

  datatype AppendError = PrincipalRequired | RoleRequired | ParentNotEarlier | TtlTooShort | TtlTooLong

  datatype AppendResult = EntryAppended(sequence: nat) | ValidationError(reason: AppendError)

  /** What the invariants J3, J4, ND1 and ND2 ask of the entry stored at `sequence`. */
  predicate Admissible(entry: ConfigEntry, sequence: nat) {
    && entry.author.principal != ""
    && entry.author.role != ""
    && (entry.parent.Some? ==> entry.parent.value < sequence)
    && (entry.ttlSeconds.Some? ==>
          entry.ttlSeconds.value == 0 || TTL_MIN_SECONDS <= entry.ttlSeconds.value <= TTL_MAX_SECONDS)
  }

  class JournalState {
    var entries: map<nat, ConfigEntry>
    var nextSequence: nat

    /** J1: exactly the sequences below `nextSequence` exist, each under its own number. */
    ghost predicate Valid()
      reads this
    {
      && (forall i: nat :: i in entries <==> i < nextSequence)
      && (forall i: nat :: i < nextSequence ==> entries[i].sequence == i && Admissible(entries[i], i))
    }

    /** The entries in sequence order. */
    ghost function Log(): (log: seq<ConfigEntry>)
      reads this
      requires Valid()
      ensures |log| == nextSequence
      ensures forall i :: 0 <= i < |log| ==> log[i].sequence == i && Admissible(log[i], i)
    {
      var stored := entries;
      seq(nextSequence, i requires i in stored => stored[i])
    }

    constructor ()
      ensures Valid() && Log() == []
    {
      entries := map[];
      nextSequence := 0;
    }

    /** An entry is stored under the next sequence exactly when it is admissible there. */
    method AppendEntry(entry: ConfigEntry) returns (r: AppendResult)
      requires Valid()
      modifies this
      ensures Valid()
      ensures r.EntryAppended? <==> Admissible(entry, |old(Log())|)
      ensures r.EntryAppended? <==>
                && entry.author.principal != "" && entry.author.role != ""
                && (entry.parent.Some? ==> entry.parent.value < |old(Log())|)
                && (entry.ttlSeconds.Some? && entry.ttlSeconds.value != 0 ==> 900 <= entry.ttlSeconds.value <= 864000)
      ensures r.ValidationError? ==>
                r.reason == if entry.author.principal == "" then PrincipalRequired
                            else if entry.author.role == "" then RoleRequired
                            else if entry.parent.Some? && entry.parent.value >= |old(Log())| then ParentNotEarlier
                            else if entry.ttlSeconds.Some? && entry.ttlSeconds.value < 900 then TtlTooShort
                            else TtlTooLong
      ensures r.EntryAppended? ==>
                r.sequence == |old(Log())| && Log() == old(Log()) + [entry.(sequence := r.sequence)]
      ensures r.ValidationError? ==> Log() == old(Log())
    {
      if entry.author.principal == "" {
        return ValidationError(PrincipalRequired);
      }
      if entry.author.role == "" {
        return ValidationError(RoleRequired);
      }
      if entry.parent.Some? && entry.parent.value >= nextSequence {
        return ValidationError(ParentNotEarlier);
      }
      if entry.ttlSeconds.Some? {
        if 0 < entry.ttlSeconds.value < TTL_MIN_SECONDS {
          return ValidationError(TtlTooShort);
        }
        if entry.ttlSeconds.value > TTL_MAX_SECONDS {
          return ValidationError(TtlTooLong);
        }
      }
      var sequence := nextSequence;
      nextSequence := nextSequence + 1;
      entries := entries[sequence := entry.(sequence := sequence)];
      r := EntryAppended(sequence);
    }
  }

  /** The ancestors of an entry, nearest first. */
  ghost function Ancestors(log: seq<ConfigEntry>, i: nat): seq<nat>
    requires i < |log|
    requires forall j :: 0 <= j < |log| ==> Admissible(log[j], j)
    decreases i
  {
    assert Admissible(log[i], i);
    if log[i].parent.None? then [] else [log[i].parent.value] + Ancestors(log, log[i].parent.value)
  }

  /** J4: a parent chain strictly decreases, so it never meets an entry twice. */
  lemma {:induction false} AncestorsDescend(log: seq<ConfigEntry>, i: nat)
    requires i < |log|
    requires forall j :: 0 <= j < |log| ==> Admissible(log[j], j)
    ensures forall k :: 0 <= k < |Ancestors(log, i)| ==> Ancestors(log, i)[k] < i
    ensures forall k, m :: 0 <= k < m < |Ancestors(log, i)| ==> Ancestors(log, i)[m] < Ancestors(log, i)[k]
    decreases i
  {
    assert Admissible(log[i], i);
    if log[i].parent.Some? {
      AncestorsDescend(log, log[i].parent.value);
    }
  }
}
