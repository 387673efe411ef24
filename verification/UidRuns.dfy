/** What every federation history keeps: dense, disjoint, stable UID blocks. */
module UidRuns {
  import opened ConfigTypes
  import opened UidMap

  datatype Op =
    | JoinOrg(org: string, index: nat)
    | AssignUser(subject: string, username: string, org: string, home: string, shell: string)
    | CollectOrg(org: string)

  ghost predicate Registered(t: Table, org: string) {
    exists o :: o in t.orgs && o.org == org
  }

  /** Where the block of an index starts, without wrap-around. */
  function Start(base: nat, index: nat, stride: nat): nat {
    base + index * stride
  }

  /** The block of an index lies below 2^32, so nothing wraps around. */
  predicate Fits(base: nat, index: nat, stride: nat) {
    Start(base, index, stride) + stride <= U32_LIMIT
  }

  /** A join uses a name and an index that are not in use, and an index whose blocks fit. */
  ghost predicate Enabled(t: Table, op: Op) {
    op.JoinOrg? ==>
      && (forall o :: o in t.orgs ==> o.org != op.org && o.index != op.index)
      && Fits(t.baseUid, op.index, t.stride) && Fits(t.baseGid, op.index, t.stride)
  }

  function Apply(t: Table, op: Op): Table {
    match op
    case JoinOrg(org, index) => t.Join(org, index)
    case AssignUser(subject, username, org, home, shell) => t.Assign(subject, username, org, home, shell).0
    case CollectOrg(org) => t.Collect(org)
  }

  ghost predicate IsRun(t: Table, ops: seq<Op>)
    decreases |ops|
  {
    ops == [] || (Enabled(t, ops[0]) && IsRun(Apply(t, ops[0]), ops[1..]))
  }

  function After(t: Table, ops: seq<Op>): Table
    decreases |ops|
  {
    if ops == [] then t else After(Apply(t, ops[0]), ops[1..])
  }

  lemma {:induction false} AfterAppend(t: Table, a: seq<Op>, b: seq<Op>)
    ensures After(t, a + b) == After(After(t, a), b)
    decreases |a|
  {
    if a == [] {
      assert a + b == b;
    } else {
      assert (a + b)[1..] == a[1..] + b;
      AfterAppend(Apply(t, a[0]), a[1..], b);
    }
  }

  lemma AfterOne(t: Table, op: Op)
    ensures After(t, [op]) == Apply(t, op)
  {
    assert [op][1..] == [];
    assert After(Apply(t, op), []) == Apply(t, op);
  }

  // ---- The invariant ----

  /** The users of one organisation. */
  function Members(t: Table, org: string): map<string, UidEntry> {
    map s | s in t.users && t.users[s].org == org :: t.users[s]
  }

  ghost predicate Held(members: map<string, UidEntry>, uid: int) {
    exists s :: s in members && members[s].uid == uid
  }

  /** There are `n` members, and they hold the `n` slots from `uid0` and `gid0` on, one each. */
  ghost predicate Dense(members: map<string, UidEntry>, n: nat, uid0: nat, gid0: nat) {
    && |members| == n
    && (forall s :: s in members ==>
          uid0 <= members[s].uid < uid0 + n && members[s].gid - gid0 == members[s].uid - uid0)
    && (forall s, s' :: s in members && s' in members && s != s' ==> members[s].uid != members[s'].uid)
    && (forall u :: uid0 <= u < uid0 + n ==> Held(members, u))
  }

  lemma DenseGrows(members: map<string, UidEntry>, n: nat, uid0: nat, gid0: nat, subject: string, e: UidEntry)
    requires Dense(members, n, uid0, gid0) && subject !in members
    requires e.uid == uid0 + n && e.gid == gid0 + n
    ensures Dense(members[subject := e], n + 1, uid0, gid0)
  {
    var members' := members[subject := e];
    forall u | uid0 <= u < uid0 + n + 1 ensures Held(members', u) {
      if u == uid0 + n {
        assert members'[subject].uid == u;
      } else {
        assert Held(members, u);
        var s :| s in members && members[s].uid == u;
        assert members'[s].uid == u;
      }
    }
  }

  /** The organisations have distinct names and indices, and their blocks fit. */
  ghost predicate OrgsOk(t: Table) {
    && (forall o, o' :: o in t.orgs && o' in t.orgs && (o.org == o'.org || o.index == o'.index) ==> o == o')
    && (forall o :: o in t.orgs ==> Fits(t.baseUid, o.index, t.stride) && Fits(t.baseGid, o.index, t.stride))
  }

  function UidStart(t: Table, o: OrgIndex): nat {
    Start(t.baseUid, o.index, t.stride)
  }

  function GidStart(t: Table, o: OrgIndex): nat {
    Start(t.baseGid, o.index, t.stride)
  }

  ghost predicate BlockOk(t: Table, o: OrgIndex) {
    && t.Offset(o.org) <= t.stride
    && Dense(Members(t, o.org), t.Offset(o.org), UidStart(t, o), GidStart(t, o))
  }

  /** Everybody and every counter belongs to a registered organisation. */
  ghost predicate RegistryOk(t: Table) {
    && OrgsOk(t)
    && (forall s :: s in t.users ==> t.users[s].subject == s && Registered(t, t.users[s].org))
    && (forall org :: org in t.nextOffset ==> Registered(t, org))
  }

  ghost predicate BlocksOk(t: Table) {
    forall o :: o in t.orgs ==> BlockOk(t, o)
  }

  ghost predicate Inv(t: Table) {
    RegistryOk(t) && BlocksOk(t)
  }

  lemma {:induction false} FindOrgIs(orgs: seq<OrgIndex>, org: string)
    ensures FindOrg(orgs, org).None? ==> forall o :: o in orgs ==> o.org != org
    ensures FindOrg(orgs, org).Some? ==> OrgIndex(org, FindOrg(orgs, org).value) in orgs
  {
    if orgs != [] {
      FindOrgIs(orgs[1..], org);
      assert orgs[0] in orgs;
    }
  }

  lemma {:induction false} DropOrgKeeps(orgs: seq<OrgIndex>, org: string, o: OrgIndex)
    ensures o in DropOrg(orgs, org) <==> o in orgs && o.org != org
  {
    if orgs != [] {
      DropOrgKeeps(orgs[1..], org, o);
    }
  }

  lemma WrapExact(base: nat, distance: nat, stride: nat, offset: nat)
    requires base + distance + stride <= U32_LIMIT && offset < stride
    ensures ((base + distance % U32_LIMIT) % U32_LIMIT + offset) % U32_LIMIT == base + distance + offset
  {
  }

  /** Within the 32-bit range the wrapping arithmetic is exact. */
  lemma PrecursorExact(base: nat, index: nat, stride: nat, offset: nat)
    requires Fits(base, index, stride) && offset < stride
    ensures (Precursor(base, index, stride) + offset) % U32_LIMIT == Start(base, index, stride) + offset
  {
    WrapExact(base, index * stride, stride, offset);
  }

  // ---- Preservation, operation by operation ----

  /** A block depends only on its organisation's users and offset. */
  lemma SameBlock(t: Table, t': Table, o: OrgIndex)
    requires BlockOk(t, o) && Members(t', o.org) == Members(t, o.org) && t'.Offset(o.org) == t.Offset(o.org)
    requires t'.baseUid == t.baseUid && t'.baseGid == t.baseGid && t'.stride == t.stride
    ensures BlockOk(t', o)
  {
  }

  lemma JoinKeepsRegistry(t: Table, org: string, index: nat)
    requires RegistryOk(t) && Enabled(t, JoinOrg(org, index))
    ensures RegistryOk(t.Join(org, index))
    ensures Members(t, org) == map[] && t.Offset(org) == 0
  {
    var t' := t.Join(org, index);
    assert !Registered(t, org);
    assert forall o :: o in t'.orgs <==> o in t.orgs || o == OrgIndex(org, index);
  }

  lemma JoinKeepsBlocks(t: Table, org: string, index: nat)
    requires BlocksOk(t) && Members(t, org) == map[] && t.Offset(org) == 0
    ensures BlocksOk(t.Join(org, index))
  {
    var t' := t.Join(org, index);
    forall o | o in t'.orgs ensures BlockOk(t', o) {
      assert Members(t', o.org) == Members(t, o.org);
      if o in t.orgs {
        SameBlock(t, t', o);
      }
    }
  }

  lemma AssignedBlock(t: Table, subject: string, e: UidEntry, o: OrgIndex, t': Table)
    requires BlockOk(t, o) && subject !in t.users && e.org == o.org
    requires t.Offset(o.org) < t.stride
    requires e.uid == UidStart(t, o) + t.Offset(o.org)
    requires e.gid == GidStart(t, o) + t.Offset(o.org)
    requires t' == t.(users := t.users[subject := e], nextOffset := t.nextOffset[o.org := t.Offset(o.org) + 1])
    ensures BlockOk(t', o)
  {
    MembersGrow(t, subject, e, t');
    DenseGrows(Members(t, o.org), t.Offset(o.org), UidStart(t, o), GidStart(t, o), subject, e);
  }

  lemma MembersGrow(t: Table, subject: string, e: UidEntry, t': Table)
    requires subject !in t.users && t'.users == t.users[subject := e]
    ensures Members(t', e.org) == Members(t, e.org)[subject := e]
  {
  }

  lemma OtherOrgsBlock(t: Table, subject: string, e: UidEntry, n: nat, o: OrgIndex)
    requires BlockOk(t, o) && subject !in t.users && e.org != o.org
    ensures BlockOk(t.(users := t.users[subject := e], nextOffset := t.nextOffset[e.org := n]), o)
  {
    var t' := t.(users := t.users[subject := e], nextOffset := t.nextOffset[e.org := n]);
    assert Members(t', o.org) == Members(t, o.org);
    SameBlock(t, t', o);
  }

  /** The slot given out is the next one of the organisation's block. */
  lemma NewEntryExact(t: Table, subject: string, username: string, o: OrgIndex, home: string, shell: string)
    requires Fits(t.baseUid, o.index, t.stride) && Fits(t.baseGid, o.index, t.stride) && t.Offset(o.org) < t.stride
    ensures var e := t.NewEntry(subject, username, o.org, home, shell, o.index);
            e.uid == UidStart(t, o) + t.Offset(o.org) && e.gid == GidStart(t, o) + t.Offset(o.org)
  {
    PrecursorExact(t.baseUid, o.index, t.stride, t.Offset(o.org));
    PrecursorExact(t.baseGid, o.index, t.stride, t.Offset(o.org));
  }

  lemma NewEntryKeepsBlocks(t: Table, subject: string, e: UidEntry, o: OrgIndex, t': Table)
    requires OrgsOk(t) && BlocksOk(t) && o in t.orgs && o.org == e.org
    requires subject !in t.users && t.Offset(o.org) < t.stride
    requires e.uid == UidStart(t, o) + t.Offset(o.org) && e.gid == GidStart(t, o) + t.Offset(o.org)
    requires t' == t.(users := t.users[subject := e], nextOffset := t.nextOffset[o.org := t.Offset(o.org) + 1])
    ensures BlocksOk(t')
  {
    AssignedBlock(t, subject, e, o, t');
    forall o' | o' in t.orgs && o' != o ensures BlockOk(t', o') {
      OtherOrgsBlock(t, subject, e, t.Offset(o.org) + 1, o');
    }
  }

  lemma NewEntryKeepsRegistry(t: Table, subject: string, e: UidEntry, o: OrgIndex, t': Table)
    requires RegistryOk(t) && o in t.orgs && o.org == e.org && e.subject == subject
    requires t' == t.(users := t.users[subject := e], nextOffset := t.nextOffset[o.org := t.Offset(o.org) + 1])
    ensures RegistryOk(t')
  {
    assert Registered(t, o.org);
    assert forall x :: Registered(t, x) ==> Registered(t', x);
  }

  /** `t'` is `t` with the next slot of the registered organisation `o` given to `subject`. */
  ghost predicate TakesSlot(t: Table, t': Table, subject: string, e: UidEntry, o: OrgIndex) {
    && o in t.orgs && subject !in t.users && t.Offset(o.org) < t.stride
    && e.subject == subject && e.org == o.org
    && e.uid == UidStart(t, o) + t.Offset(o.org) && e.gid == GidStart(t, o) + t.Offset(o.org)
    && t' == t.(users := t.users[subject := e], nextOffset := t.nextOffset[o.org := t.Offset(o.org) + 1])
  }

  lemma SlotKeepsInv(t: Table, t': Table, subject: string, e: UidEntry, o: OrgIndex)
    requires Inv(t) && TakesSlot(t, t', subject, e, o)
    ensures Inv(t')
  {
    NewEntryKeepsRegistry(t, subject, e, o, t');
    NewEntryKeepsBlocks(t, subject, e, o, t');
  }

  /** An assignment either leaves the table alone or gives out the next slot of a registered organisation. */
  lemma AssignEffect(t: Table, subject: string, username: string, org: string, home: string, shell: string, t': Table)
    returns (o: OrgIndex, e: UidEntry)
    requires OrgsOk(t) && t' == t.Assign(subject, username, org, home, shell).0
    ensures t' == t || TakesSlot(t, t', subject, e, o)
  {
    FindOrgIs(t.orgs, org);
    o := OrgIndex(org, if FindOrg(t.orgs, org).Some? then FindOrg(t.orgs, org).value else 0);
    e := t.NewEntry(subject, username, org, home, shell, o.index);
    if t' != t {
      NewEntryExact(t, subject, username, o, home, shell);
    }
  }

  lemma AssignKeepsInv(t: Table, subject: string, username: string, org: string, home: string, shell: string)
    requires Inv(t)
    ensures Inv(t.Assign(subject, username, org, home, shell).0)
  {
    var t' := t.Assign(subject, username, org, home, shell).0;
    var o, e := AssignEffect(t, subject, username, org, home, shell, t');
    if t' != t {
      SlotKeepsInv(t, t', subject, e, o);
    }
  }

  lemma CollectKeepsRegistry(t: Table, org: string)
    requires RegistryOk(t)
    ensures RegistryOk(t.Collect(org))
  {
    var t' := t.Collect(org);
    forall o ensures o in t'.orgs <==> o in t.orgs && o.org != org {
      DropOrgKeeps(t.orgs, org, o);
    }
    forall x | Registered(t, x) && x != org ensures Registered(t', x) {
      var o :| o in t.orgs && o.org == x;
      assert o in t'.orgs;
    }
  }

  /** `t'` is `t` without `org`: its users, its counter and its entries in the registry. */
  ghost predicate Departed(t: Table, org: string, t': Table) {
    && (forall o :: o in t'.orgs ==> o in t.orgs && o.org != org)
    && t'.users == Remaining(t.users, org) && t'.nextOffset == t.nextOffset - {org}
    && t'.baseUid == t.baseUid && t'.baseGid == t.baseGid && t'.stride == t.stride
  }

  lemma OtherMembersStay(t: Table, org: string, t': Table, other: string)
    requires t'.users == Remaining(t.users, org) && other != org
    ensures Members(t', other) == Members(t, other)
  {
  }

  lemma DepartureKeepsBlocks(t: Table, org: string, t': Table)
    requires BlocksOk(t) && Departed(t, org, t')
    ensures BlocksOk(t')
  {
    forall o | o in t'.orgs ensures BlockOk(t', o) {
      OtherMembersStay(t, org, t', o.org);
      SameBlock(t, t', o);
    }
  }

  lemma CollectKeepsInv(t: Table, org: string)
    requires Inv(t)
    ensures Inv(t.Collect(org))
  {
    CollectKeepsRegistry(t, org);
    var t' := t.Collect(org);
    forall o | o in t'.orgs ensures o in t.orgs && o.org != org {
      DropOrgKeeps(t.orgs, org, o);
    }
    DepartureKeepsBlocks(t, org, t');
  }

  lemma InvStep(t: Table, op: Op)
    requires Inv(t) && Enabled(t, op)
    ensures Inv(Apply(t, op))
  {
    match op
    case JoinOrg(org, index) =>
      JoinKeepsRegistry(t, org, index);
      JoinKeepsBlocks(t, org, index);
    case AssignUser(subject, username, org, home, shell) =>
      AssignKeepsInv(t, subject, username, org, home, shell);
    case CollectOrg(org) =>
      CollectKeepsInv(t, org);
  }

  /** A table nobody has joined yet, such as `NewTable()`. */
  ghost predicate Unused(t: Table) {
    t.users == map[] && t.orgs == [] && t.nextOffset == map[]
  }

  lemma {:induction false} InvRun(t: Table, ops: seq<Op>)
    requires Inv(t) && IsRun(t, ops)
    ensures Inv(After(t, ops))
    decreases |ops|
  {
    if ops != [] {
      InvStep(t, ops[0]);
      InvRun(Apply(t, ops[0]), ops[1..]);
    }
  }

  // ---- What the design promises ----

  lemma BlocksDisjoint(base: nat, i: nat, j: nat, stride: nat)
    requires i < j
    ensures Start(base, i, stride) + stride <= Start(base, j, stride)
    decreases j
  {
    assert j * stride == (j - 1) * stride + stride;
    if i < j - 1 {
      BlocksDisjoint(base, i, j - 1, stride);
    }
  }

  lemma InBlock(t: Table, s: string) returns (o: OrgIndex)
    requires Inv(t) && s in t.users
    ensures o in t.orgs && o.org == t.users[s].org && s in Members(t, o.org)
    ensures BlockOk(t, o)
    ensures UidStart(t, o) <= t.users[s].uid < UidStart(t, o) + t.stride
    ensures GidStart(t, o) <= t.users[s].gid < GidStart(t, o) + t.stride
  {
    assert Registered(t, t.users[s].org);
    o :| o in t.orgs && o.org == t.users[s].org;
    assert BlockOk(t, o) && Members(t, o.org)[s] == t.users[s];
  }

  /** No two subjects share a UID or a GID, whichever organisations they belong to. */
  lemma UidsDistinct(t: Table, s: string, s': string)
    requires Inv(t) && s in t.users && s' in t.users && s != s'
    ensures t.users[s].uid != t.users[s'].uid && t.users[s].gid != t.users[s'].gid
  {
    var o := InBlock(t, s);
    var o' := InBlock(t, s');
    if o.index < o'.index {
      BlocksDisjoint(t.baseUid, o.index, o'.index, t.stride);
      BlocksDisjoint(t.baseGid, o.index, o'.index, t.stride);
    } else if o'.index < o.index {
      BlocksDisjoint(t.baseUid, o'.index, o.index, t.stride);
      BlocksDisjoint(t.baseGid, o'.index, o.index, t.stride);
    } else {
      assert o == o';
      assert Members(t, o.org)[s] == t.users[s] && Members(t, o.org)[s'] == t.users[s'];
    }
  }

  /**
   IM2 and IM3 over every history of a table, whatever its bases and stride: the users of a registered
   organisation, `n` of them, hold exactly the first `n` slots of its own block; no two
   subjects of the table share a UID or GID; and neither kind reaches 2^32.
   */
  lemma FederationInvariant(t0: Table, ops: seq<Op>)
    requires Unused(t0) && IsRun(t0, ops)
    ensures var t := After(t0, ops);
            && (forall o :: o in t.orgs ==>
                  var n := |Members(t, o.org)|;
                  && n <= t.stride && UidStart(t, o) + n <= U32_LIMIT && GidStart(t, o) + n <= U32_LIMIT
                  && Dense(Members(t, o.org), n, UidStart(t, o), GidStart(t, o)))
            && (forall s :: s in t.users ==> Registered(t, t.users[s].org))
            && (forall s, s' :: s in t.users && s' in t.users && s != s' ==>
                  t.users[s].uid != t.users[s'].uid && t.users[s].gid != t.users[s'].gid)
  {
    InvRun(t0, ops);
    var t := After(t0, ops);
    forall s, s' | s in t.users && s' in t.users && s != s'
      ensures t.users[s].uid != t.users[s'].uid && t.users[s].gid != t.users[s'].gid
    {
      UidsDistinct(t, s, s');
    }
  }

  lemma NewcomerDistinct(t: Table, t': Table, subject: string, e: UidEntry)
    requires Inv(t') && subject !in t.users && t'.users == t.users[subject := e]
    ensures forall s :: s in t.users ==> t.users[s].uid != e.uid
  {
    forall s | s in t.users ensures t.users[s].uid != e.uid {
      UidsDistinct(t', s, subject);
    }
  }

  /** A UID given to a new subject is nobody else's. */
  lemma AssignedUidIsNew(t: Table, subject: string, username: string, org: string, home: string, shell: string)
    requires Inv(t) && subject !in t.users
    ensures var r := t.Assign(subject, username, org, home, shell).1;
            r.Assigned? ==> forall s :: s in t.users ==> t.users[s].uid != r.entry.uid
  {
    AssignKeepsInv(t, subject, username, org, home, shell);
    var (t', r) := t.Assign(subject, username, org, home, shell);
    if r.Assigned? {
      NewcomerDistinct(t, t', subject, r.entry);
    }
  }

  /** A subject that has an entry gets it again, and the table stays as it is. */
  lemma AssignAgain(t: Table, subject: string, username: string, org: string, home: string, shell: string)
    requires subject in t.users
    ensures t.Assign(subject, username, org, home, shell) == (t, Assigned(t.users[subject]))
  {
  }

  /** What a new subject of a registered organisation with room gets: the next slot, and the fields as given. */
  lemma AssignNew(t: Table, subject: string, username: string, o: OrgIndex, home: string, shell: string, e: UidEntry)
    requires Inv(t) && subject !in t.users && o in t.orgs && |Members(t, o.org)| < t.stride
    requires var n := |Members(t, o.org)|;
             e == UidEntry(subject := subject, uid := t.baseUid + o.index * t.stride + n,
                           gid := t.baseGid + o.index * t.stride + n,
                           username := username, home := home, shell := shell, org := o.org)
    ensures var (t', r) := t.Assign(subject, username, o.org, home, shell);
            r == Assigned(e) && t'.users == t.users[subject := e] && t'.orgs == t.orgs && t'.groups == t.groups
  {
    OrgFound(t, o);
    AssignInBlock(t, subject, username, o, home, shell);
  }

  lemma OrgFound(t: Table, o: OrgIndex)
    requires Inv(t) && o in t.orgs
    ensures FindOrg(t.orgs, o.org) == Some(o.index) && t.Offset(o.org) == |Members(t, o.org)|
    ensures Fits(t.baseUid, o.index, t.stride) && Fits(t.baseGid, o.index, t.stride)
  {
    FindOrgIs(t.orgs, o.org);
    assert BlockOk(t, o);
  }

  lemma AssignInBlock(t: Table, subject: string, username: string, o: OrgIndex, home: string, shell: string)
    requires subject !in t.users && FindOrg(t.orgs, o.org) == Some(o.index) && t.Offset(o.org) < t.stride
    requires Fits(t.baseUid, o.index, t.stride) && Fits(t.baseGid, o.index, t.stride)
    ensures var e := UidEntry(subject, Start(t.baseUid, o.index, t.stride) + t.Offset(o.org),
                              Start(t.baseGid, o.index, t.stride) + t.Offset(o.org), username, home, shell, o.org);
            t.Assign(subject, username, o.org, home, shell)
            == (t.(users := t.users[subject := e], nextOffset := t.nextOffset[o.org := t.Offset(o.org) + 1]), Assigned(e))
  {
    NewEntryExact(t, subject, username, o, home, shell);
  }

  /** Assignment to a new subject fails exactly when the organisation is unknown or its block is full. */
  lemma AssignFailsIff(t: Table, subject: string, username: string, org: string, home: string, shell: string)
    requires Inv(t) && subject !in t.users
    ensures var r := t.Assign(subject, username, org, home, shell).1;
            && (r.OrgNotRegistered? <==> !Registered(t, org))
            && (r.UidRangeExhausted? <==> Registered(t, org) && |Members(t, org)| == t.stride)
            && (r.OrgNotRegistered? ==> r.org == org)
            && (r.UidRangeExhausted? ==> r.org == org && r.stride == r.used == t.stride)
            && (!r.Assigned? ==> t.Assign(subject, username, org, home, shell).0 == t)
  {
    FindOrgIs(t.orgs, org);
    if FindOrg(t.orgs, org).Some? {
      assert BlockOk(t, OrgIndex(org, FindOrg(t.orgs, org).value));
    }
  }

  ghost predicate NeverCollects(ops: seq<Op>, org: string) {
    forall i :: 0 <= i < |ops| ==> ops[i] != CollectOrg(org)
  }

  /** IM1: an assignment stands, unchanged, until the subject's own organisation departs. */
  lemma {:induction false} AssignmentStable(t: Table, ops: seq<Op>, subject: string)
    requires subject in t.users && NeverCollects(ops, t.users[subject].org)
    ensures subject in After(t, ops).users && After(t, ops).users[subject] == t.users[subject]
    decreases |ops|
  {
    if ops != [] {
      assert ops[0] != CollectOrg(t.users[subject].org);
      assert NeverCollects(ops[1..], t.users[subject].org) by {
        assert forall i :: 0 <= i < |ops[1..]| ==> ops[1..][i] == ops[i + 1];
      }
      AssignmentStable(Apply(t, ops[0]), ops[1..], subject);
    }
  }

  /** A departure removes the organisation and all of its users, and nobody else. */
  lemma DepartureIsComplete(t: Table, org: string)
    ensures var t' := t.Collect(org);
            && !Registered(t', org) && t'.Offset(org) == 0
            && (forall s :: s in t'.users <==> s in t.users && t.users[s].org != org)
            && (forall s :: s in t'.users ==> t'.users[s] == t.users[s])
            && (forall o :: o in t'.orgs <==> o in t.orgs && o.org != org)
            && (forall x :: x != org ==> t'.Offset(x) == t.Offset(x))
            && t'.baseUid == t.baseUid && t'.baseGid == t.baseGid && t'.stride == t.stride
  {
    var t' := t.Collect(org);
    forall o ensures o in t'.orgs <==> o in t.orgs && o.org != org {
      DropOrgKeeps(t.orgs, org, o);
    }
  }

  // ---- Where the code falls short of its intent ----

  lemma {:induction false} WithoutOrgUnchangedIff(members: seq<string>, users: map<string, UidEntry>, org: string)
    ensures |WithoutOrg(members, users, org)| <= |members|
    ensures WithoutOrg(members, users, org) == members <==> forall m :: m in members ==> !IsUserOf(users, m, org)
    ensures forall m :: m in WithoutOrg(members, users, org) <==> m in members && !IsUserOf(users, m, org)
  {
    if members != [] {
      WithoutOrgUnchangedIff(members[1..], users, org);
      if !IsUserOf(users, members[0], org) {
        assert WithoutOrg(members, users, org) == [members[0]] + WithoutOrg(members[1..], users, org);
        assert WithoutOrg(members, users, org)[1..] == WithoutOrg(members[1..], users, org);
        assert members == [members[0]] + members[1..];
      }
    }
  }

  /** The groups as a departure should leave them: pruned against the users that were there before. */
  function PrunedGroups(t: Table, org: string): map<string, GroupEntry> {
    Pruned(t.groups, t.users, org)
  }

  ghost predicate SomeGroupNames(t: Table, org: string) {
    exists g :: g in t.groups && exists m :: m in t.groups[g].members && IsUserOf(t.users, m, org)
  }

  /**
   Because the users are dropped first, a departure never changes a group; it meets its
   intent exactly when no group lists a user of the departing organisation.
   */
  lemma GroupsNeverPruned(t: Table, org: string)
    ensures t.Collect(org).groups == t.groups
    ensures t.Collect(org).groups == PrunedGroups(t, org) <==> !SomeGroupNames(t, org)
  {
    var t' := t.Collect(org);
    forall g | g in t.groups
      ensures t'.groups[g] == t.groups[g]
      ensures PrunedGroups(t, org)[g] == t.groups[g] <==> forall m :: m in t.groups[g].members ==> !IsUserOf(t.users, m, org)
    {
      WithoutOrgUnchangedIff(t.groups[g].members, t'.users, org);
      WithoutOrgUnchangedIff(t.groups[g].members, t.users, org);
    }
    assert t'.groups == t.groups;
    if SomeGroupNames(t, org) {
      var g :| g in t.groups && exists m :: m in t.groups[g].members && IsUserOf(t.users, m, org);
      assert PrunedGroups(t, org)[g] != t'.groups[g];
    } else {
      assert PrunedGroups(t, org) == t.groups;
    }
  }

  predicate SameSlot(p: nat, k: nat, q: nat, m: nat) {
    (p + k) % U32_LIMIT == (q + m) % U32_LIMIT
  }

  /** Two blocks of `stride` slots starting at `p` and `q`, on a circle of 2^32, have a slot in common. */
  ghost predicate Collide(p: nat, q: nat, stride: nat) {
    exists k: nat, m: nat :: k < stride && m < stride && SameSlot(p, k, q, m)
  }

  /** How far `q` lies ahead of `p` on that circle. */
  function Ahead(p: nat, q: nat): nat
    requires p < U32_LIMIT && q < U32_LIMIT
  {
    (q + U32_LIMIT - p) % U32_LIMIT
  }

  /**
   Without the range restriction, IM2 holds for two indices if and only if their precursors
   are at least a stride apart in both directions, which a join could check.
   */
  lemma WrappedBlocksCollideIff(base: nat, i: nat, j: nat, stride: nat)
    requires 0 < stride <= U32_LIMIT
    ensures var p, q := Precursor(base, i, stride), Precursor(base, j, stride);
            Collide(p, q, stride) <==> Ahead(p, q) < stride || Ahead(q, p) < stride
  {
    CollideIff(Precursor(base, i, stride), Precursor(base, j, stride), stride);
  }

  lemma CollideIff(p: nat, q: nat, stride: nat)
    requires p < U32_LIMIT && q < U32_LIMIT && 0 < stride <= U32_LIMIT
    ensures Collide(p, q, stride) <==> Ahead(p, q) < stride || Ahead(q, p) < stride
  {
    AheadReaches(p, q);
    AheadReaches(q, p);
    if Collide(p, q, stride) {
      var k: nat, m: nat :| k < stride && m < stride && SameSlot(p, k, q, m);
      SlotDistance(p, q, k, m);
    }
  }

  lemma AheadReaches(p: nat, q: nat)
    requires p < U32_LIMIT && q < U32_LIMIT
    ensures SameSlot(p, Ahead(p, q), q, 0) && SameSlot(q, 0, p, Ahead(p, q))
  {
  }

  lemma SlotDistance(p: nat, q: nat, k: nat, m: nat)
    requires p < U32_LIMIT && q < U32_LIMIT && k < U32_LIMIT && m < U32_LIMIT
    requires SameSlot(p, k, q, m)
    ensures if m <= k then Ahead(p, q) == k - m else Ahead(q, p) == m - k
    ensures Ahead(p, q) <= k || Ahead(q, p) <= m
  {
    assert (p + k) % U32_LIMIT == if p + k < U32_LIMIT then p + k else p + k - U32_LIMIT;
    assert (q + m) % U32_LIMIT == if q + m < U32_LIMIT then q + m else q + m - U32_LIMIT;
    assert Ahead(p, q) == if p <= q then q - p else q + U32_LIMIT - p;
    assert Ahead(q, p) == if q <= p then p - q else p + U32_LIMIT - q;
  }

  /** Such a collision: a stride and an index that multiply to 2^32 put an organisation on top of index 0. */
  lemma WrapAroundCollides()
    ensures Precursor(10000, 0x1_0000, 0x1_0000) == Precursor(10000, 0, 0x1_0000)
    ensures Collide(Precursor(10000, 0x1_0000, 0x1_0000), Precursor(10000, 0, 0x1_0000), 0x1_0000)
  {
    var p := Precursor(10000, 0, 0x1_0000);
    assert SameSlot(p, 0, p, 0);
  }
}
