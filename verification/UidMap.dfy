/** The OIDC-to-POSIX identity table: per-organisation UID and GID blocks. */
module UidMap {
  import opened ConfigTypes

  datatype UidEntry = UidEntry(
    subject: string, uid: nat, gid: nat, username: string, home: string, shell: string, org: string)

  datatype GroupEntry = GroupEntry(name: string, gid: nat, members: seq<string>)

  datatype OrgIndex = OrgIndex(org: string, index: nat)

  datatype AssignResult =
    | Assigned(entry: UidEntry)
    | OrgNotRegistered(org: string)
    | UidRangeExhausted(org: string, stride: nat, used: nat)

  /** `base + index * stride` in 32-bit arithmetic that wraps around. */
  function Precursor(base: nat, index: nat, stride: nat): nat {
    (base + (index * stride) % U32_LIMIT) % U32_LIMIT
  }

  /** The first organisation of that name, as `Iterator::find` returns it. */
  function FindOrg(orgs: seq<OrgIndex>, org: string): Option<nat> {
    if orgs == [] then None
    else if orgs[0].org == org then Some(orgs[0].index)
    else FindOrg(orgs[1..], org)
  }

  /** The table as a value. */
  datatype Table = Table(
    users: map<string, UidEntry>,
    groups: map<string, GroupEntry>,
    orgs: seq<OrgIndex>,
    baseUid: nat,
    baseGid: nat,
    stride: nat,
    nextOffset: map<string, nat>)
  {
    function Offset(org: string): nat {
      if org in nextOffset then nextOffset[org] else 0
    }

    function NewEntry(subject: string, username: string, org: string, home: string, shell: string, index: nat): UidEntry {
      UidEntry(subject,
               (Precursor(baseUid, index, stride) + Offset(org)) % U32_LIMIT,
               (Precursor(baseGid, index, stride) + Offset(org)) % U32_LIMIT,
               username, home, shell, org)
    }

    function Assign(subject: string, username: string, org: string, home: string, shell: string): (Table, AssignResult) {
      if subject in users then (this, Assigned(users[subject]))
      else
        match FindOrg(orgs, org)
        case None => (this, OrgNotRegistered(org))
        case Some(index) =>
          if Offset(org) >= stride then (this, UidRangeExhausted(org, stride, Offset(org)))
          else
            var entry := NewEntry(subject, username, org, home, shell, index);
            (this.(users := users[subject := entry], nextOffset := nextOffset[org := Offset(org) + 1]), Assigned(entry))
    }

    /** Federation departure: note that the groups are pruned against the users that remain. */
    function Collect(org: string): Table {
      this.(users := Remaining(users, org),
            groups := Pruned(groups, Remaining(users, org), org),
            nextOffset := nextOffset - {org},
            orgs := DropOrg(orgs, org))
    }

    /** Federation join: the organisation is recorded under an index. */
    function Join(org: string, index: nat): Table {
      this.(orgs := orgs + [OrgIndex(org, index)])
    }
  }

  predicate IsUserOf(users: map<string, UidEntry>, username: string, org: string) {
    exists s :: s in users && users[s].username == username && users[s].org == org
  }

  /** The members that are not users of `org` according to `users`. */
  function WithoutOrg(members: seq<string>, users: map<string, UidEntry>, org: string): seq<string> {
    if members == [] then []
    else (if IsUserOf(users, members[0], org) then [] else [members[0]]) + WithoutOrg(members[1..], users, org)
  }

  /** The users of the other organisations. */
  function Remaining(users: map<string, UidEntry>, org: string): map<string, UidEntry> {
    map s | s in users && users[s].org != org :: users[s]
  }

  function Pruned(groups: map<string, GroupEntry>, users: map<string, UidEntry>, org: string): map<string, GroupEntry> {
    map g | g in groups :: groups[g].(members := WithoutOrg(groups[g].members, users, org))
  }

  function DropOrg(orgs: seq<OrgIndex>, org: string): seq<OrgIndex> {
    if orgs == [] then []
    else (if orgs[0].org == org then [] else [orgs[0]]) + DropOrg(orgs[1..], org)
  }

  function NewTable(): Table {
    Table(map[], map[], [], 10000, 10000, 10000, map[])
  }

  /** The table object, updated in place. */
  class IdentityTable {
    var users: map<string, UidEntry>
    var groups: map<string, GroupEntry>
    var orgIndices: seq<OrgIndex>
    var baseUid: nat
    var baseGid: nat
    var stride: nat
    var nextUidOffset: map<string, nat>

    ghost function State(): Table
      reads this
    {
      Table(users, groups, orgIndices, baseUid, baseGid, stride, nextUidOffset)
    }

    constructor ()
      ensures State() == NewTable()
      ensures users == map[] && groups == map[] && orgIndices == [] && nextUidOffset == map[]
      ensures baseUid == baseGid == stride == 10000
    {
      users, groups, orgIndices, nextUidOffset := map[], map[], [], map[];
      baseUid, baseGid, stride := 10000, 10000, 10000;
    }

    method AssignUid(subject: string, username: string, org: string, home: string, shell: string)
      returns (r: AssignResult)
      modifies this`users, this`nextUidOffset
      ensures (State(), r) == old(State()).Assign(subject, username, org, home, shell)
    {
      if subject in users {
        return Assigned(users[subject]);
      }
      var idx := FindOrg(orgIndices, org);
      if idx.None? {
        return OrgNotRegistered(org);
      }
      var offset := if org in nextUidOffset then nextUidOffset[org] else 0;
      if offset >= stride {
        return UidRangeExhausted(org, stride, offset);
      }
      var uid := (Precursor(baseUid, idx.value, stride) + offset) % U32_LIMIT;
      var gid := (Precursor(baseGid, idx.value, stride) + offset) % U32_LIMIT;
      var entry := UidEntry(subject, uid, gid, username, home, shell, org);
      users := users[subject := entry];
      nextUidOffset := nextUidOffset[org := offset + 1];
      r := Assigned(entry);
    }

    method GcOrg(org: string)
      modifies this`users, this`groups, this`nextUidOffset, this`orgIndices
      ensures State() == old(State()).Collect(org)
    {
      users := map s | s in users && users[s].org != org :: users[s];
      groups := map g | g in groups :: groups[g].(members := WithoutOrg(groups[g].members, users, org));
      nextUidOffset := nextUidOffset - {org};
      orgIndices := DropOrg(orgIndices, org);
    }
  }
}
