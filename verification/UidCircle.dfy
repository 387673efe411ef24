/**
 The identity table with 32-bit wrap-around: UIDs lie on a circle of 2^32, and an
 organisation's block may run past its end. What keeps the subjects apart is then that
 the blocks do not meet on the circle.
 */
module UidCircle {
  import opened ConfigTypes
  import opened UidMap
  import opened UidRuns

  /** Slot `k` of a block that starts at `p`. */
  function Slot(p: nat, k: nat): nat {
    (p + k) % U32_LIMIT
  }

  /** The two blocks are at least a stride apart in both directions, which is easily computed. */
  predicate Apart(base: nat, i: nat, j: nat, stride: nat) {
    var p, q := Precursor(base, i, stride), Precursor(base, j, stride);
    stride <= Ahead(p, q) && stride <= Ahead(q, p)
  }

  /** Blocks that are apart share no slot. */
  lemma ApartSlots(base: nat, i: nat, j: nat, stride: nat, k: nat, m: nat)
    requires Apart(base, i, j, stride) && stride <= U32_LIMIT && k < stride && m < stride
    ensures Slot(Precursor(base, i, stride), k) != Slot(Precursor(base, j, stride), m)
  {
    var p, q := Precursor(base, i, stride), Precursor(base, j, stride);
    CollideIff(p, q, stride);
    assert !SameSlot(p, k, q, m);
  }

  /** Within a block the slots differ, as it is no longer than the circle. */
  lemma SlotsDiffer(p: nat, k: nat, m: nat)
    requires k < m < U32_LIMIT
    ensures Slot(p, k) != Slot(p, m)
  {
  }

  /** A join uses a name that is not in use, and an index whose blocks are apart from all others. */
  ghost predicate Possible(t: Table, op: Op) {
    op.JoinOrg? ==>
      forall o :: o in t.orgs ==> o.org != op.org && BothApart(t, o.index, op.index)
  }

  predicate BothApart(t: Table, i: nat, j: nat) {
    Apart(t.baseUid, i, j, t.stride) && Apart(t.baseGid, i, j, t.stride)
  }

  ghost predicate IsHistory(t: Table, ops: seq<Op>)
    decreases |ops|
  {
    ops == [] || (Possible(t, ops[0]) && IsHistory(Apply(t, ops[0]), ops[1..]))
  }

  // ---- The invariant ----

  ghost predicate OrgsApart(t: Table) {
    forall o, o' :: o in t.orgs && o' in t.orgs && o != o' ==> o.org != o'.org && BothApart(t, o.index, o'.index)
  }

  /** A slot of an organisation. */
  datatype Seat = Seat(o: OrgIndex, k: nat)

  /** `e` holds the seat, which its organisation has given out. */
  ghost predicate Seated(t: Table, e: UidEntry, seat: Seat) {
    && seat.o in t.orgs && seat.o.org == e.org && seat.k < t.Offset(e.org)
    && e.uid == Slot(Precursor(t.baseUid, seat.o.index, t.stride), seat.k)
    && e.gid == Slot(Precursor(t.baseGid, seat.o.index, t.stride), seat.k)
  }

  /** `seats` tells everybody's seat, one each. */
  ghost predicate AllSeated(t: Table, seats: map<string, Seat>) {
    && seats.Keys == t.users.Keys
    && (forall s :: s in t.users ==> Seated(t, t.users[s], seats[s]))
    && OneEach(seats)
  }

  ghost predicate OneEach(seats: map<string, Seat>) {
    forall s, s' :: s in seats && s' in seats && s != s' ==> seats[s] != seats[s']
  }

  lemma OneEachGrows(seats: map<string, Seat>, subject: string, seat: Seat)
    requires OneEach(seats) && subject !in seats && forall s :: s in seats ==> seats[s] != seat
    ensures OneEach(seats[subject := seat])
  {
  }

  ghost predicate OffsetsOk(t: Table) {
    forall org :: org in t.nextOffset ==> Registered(t, org) && t.nextOffset[org] <= t.stride
  }

  ghost predicate CircleInv(t: Table, seats: map<string, Seat>) {
    t.stride <= U32_LIMIT && OrgsApart(t) && AllSeated(t, seats) && OffsetsOk(t)
  }

  lemma {:induction false} ApartSymmetric(t: Table, i: nat, j: nat)
    ensures BothApart(t, i, j) <==> BothApart(t, j, i)
  {
  }

  lemma JoinKeepsApart(t: Table, org: string, index: nat, t': Table)
    requires OrgsApart(t) && Possible(t, JoinOrg(org, index)) && t' == t.Join(org, index)
    ensures OrgsApart(t')
  {
    forall o | o in t.orgs ensures BothApart(t, index, o.index) {
      ApartSymmetric(t, o.index, index);
    }
  }

  lemma FewerOrgsApart(t: Table, t': Table)
    requires OrgsApart(t) && t'.baseUid == t.baseUid && t'.baseGid == t.baseGid && t'.stride == t.stride
    requires forall o :: o in t'.orgs ==> o in t.orgs
    ensures OrgsApart(t')
  {
  }

  lemma RegistrationStays(t: Table, t': Table, org: string)
    requires Registered(t, org) && forall o :: o in t.orgs && o.org == org ==> o in t'.orgs
    ensures Registered(t', org)
  {
    var o :| o in t.orgs && o.org == org;
    assert o in t'.orgs;
  }

  lemma JoinKeepsOffsets(t: Table, t': Table)
    requires OffsetsOk(t) && t'.nextOffset == t.nextOffset && t'.stride == t.stride
    requires forall o :: o in t.orgs ==> o in t'.orgs
    ensures OffsetsOk(t')
  {
    forall x | x in t'.nextOffset ensures Registered(t', x) {
      RegistrationStays(t, t', x);
    }
  }

  lemma JoinStep(t: Table, org: string, index: nat, seats: map<string, Seat>, t': Table)
    requires CircleInv(t, seats) && Possible(t, JoinOrg(org, index)) && t' == t.Join(org, index)
    ensures CircleInv(t', seats)
  {
    JoinKeepsApart(t, org, index, t');
    JoinKeepsOffsets(t, t');
  }

  /** `t'` is `t` with the next slot of `o` given to `subject`. */
  ghost predicate GivesNext(t: Table, subject: string, e: UidEntry, o: OrgIndex, t': Table) {
    && o in t.orgs && e.org == o.org && subject !in t.users && t.Offset(o.org) < t.stride
    && e.uid == Slot(Precursor(t.baseUid, o.index, t.stride), t.Offset(o.org))
    && e.gid == Slot(Precursor(t.baseGid, o.index, t.stride), t.Offset(o.org))
    && t' == t.(users := t.users[subject := e], nextOffset := t.nextOffset[o.org := t.Offset(o.org) + 1])
  }

  /** The slot that is given out is nobody's yet. */
  lemma NextKeepsSeats(t: Table, subject: string, e: UidEntry, o: OrgIndex, seats: map<string, Seat>, t': Table)
    requires AllSeated(t, seats) && GivesNext(t, subject, e, o, t')
    ensures AllSeated(t', seats[subject := Seat(o, t.Offset(o.org))])
  {
    forall s | s in t.users ensures Seated(t', t.users[s], seats[s]) && seats[s] != Seat(o, t.Offset(o.org)) {
      SeatStays(t, subject, e, o, t', t.users[s], seats[s]);
    }
    NewSeat(t, subject, e, o, t');
    OneEachGrows(seats, subject, Seat(o, t.Offset(o.org)));
  }

  lemma SeatStays(t: Table, subject: string, e: UidEntry, o: OrgIndex, t': Table, other: UidEntry, seat: Seat)
    requires GivesNext(t, subject, e, o, t') && Seated(t, other, seat)
    ensures Seated(t', other, seat) && seat != Seat(o, t.Offset(o.org))
  {
  }

  lemma NewSeat(t: Table, subject: string, e: UidEntry, o: OrgIndex, t': Table)
    requires GivesNext(t, subject, e, o, t')
    ensures Seated(t', e, Seat(o, t.Offset(o.org)))
  {
  }

  lemma NextKeepsOffsets(t: Table, subject: string, e: UidEntry, o: OrgIndex, t': Table)
    requires OffsetsOk(t) && GivesNext(t, subject, e, o, t')
    ensures OffsetsOk(t')
  {
    assert Registered(t, o.org);
    assert forall x :: Registered(t, x) ==> Registered(t', x);
  }

  lemma AssignGivesNext(t: Table, op: Op, t': Table) returns (o: OrgIndex, e: UidEntry)
    requires op.AssignUser? && t' == Apply(t, op)
    ensures t' == t || GivesNext(t, op.subject, e, o, t')
  {
    FindOrgIs(t.orgs, op.org);
    o := OrgIndex(op.org, if FindOrg(t.orgs, op.org).Some? then FindOrg(t.orgs, op.org).value else 0);
    e := t.NewEntry(op.subject, op.username, op.org, op.home, op.shell, o.index);
  }

  lemma AssignStep(t: Table, op: Op, seats: map<string, Seat>, t': Table) returns (seats': map<string, Seat>)
    requires CircleInv(t, seats) && op.AssignUser? && t' == Apply(t, op)
    ensures CircleInv(t', seats')
  {
    var o, e := AssignGivesNext(t, op, t');
    if t' == t {
      seats' := seats;
    } else {
      seats' := seats[op.subject := Seat(o, t.Offset(o.org))];
      NextKeepsSeats(t, op.subject, e, o, seats, t');
      NextKeepsOffsets(t, op.subject, e, o, t');
      FewerOrgsApart(t, t');
    }
  }

  lemma DepartureKeepsSeats(t: Table, org: string, seats: map<string, Seat>, t': Table)
    requires AllSeated(t, seats) && Departed(t, org, t') && forall o :: o in t.orgs && o.org != org ==> o in t'.orgs
    ensures AllSeated(t', map s | s in t'.users :: seats[s])
  {
    forall s | s in t'.users ensures Seated(t', t'.users[s], seats[s]) {
      assert Seated(t, t.users[s], seats[s]);
    }
  }

  lemma DepartureKeepsOffsets(t: Table, org: string, t': Table)
    requires OffsetsOk(t) && Departed(t, org, t') && forall o :: o in t.orgs && o.org != org ==> o in t'.orgs
    ensures OffsetsOk(t')
  {
    forall x | x in t'.nextOffset ensures Registered(t', x) && t'.nextOffset[x] <= t'.stride {
      RegistrationStays(t, t', x);
    }
  }

  lemma CollectStep(t: Table, org: string, seats: map<string, Seat>, t': Table)
    requires CircleInv(t, seats) && t' == t.Collect(org)
    ensures t'.users.Keys <= seats.Keys && CircleInv(t', map s | s in t'.users :: seats[s])
  {
    forall o ensures o in t'.orgs <==> o in t.orgs && o.org != org {
      DropOrgKeeps(t.orgs, org, o);
    }
    DepartureKeepsSeats(t, org, seats, t');
    DepartureKeepsOffsets(t, org, t');
    FewerOrgsApart(t, t');
  }

  lemma CircleStep(t: Table, op: Op, seats: map<string, Seat>, t': Table) returns (seats': map<string, Seat>)
    requires CircleInv(t, seats) && Possible(t, op) && t' == Apply(t, op)
    ensures CircleInv(t', seats')
  {
    match op {
      case JoinOrg(org, index) =>
        JoinStep(t, org, index, seats, t');
        seats' := seats;
      case AssignUser(_, _, _, _, _) =>
        seats' := AssignStep(t, op, seats, t');
      case CollectOrg(org) =>
        CollectStep(t, org, seats, t');
        seats' := map s | s in t'.users :: seats[s];
    }
  }

  lemma {:induction false} CircleRun(t: Table, ops: seq<Op>, seats: map<string, Seat>) returns (seats': map<string, Seat>)
    requires CircleInv(t, seats) && IsHistory(t, ops)
    ensures CircleInv(After(t, ops), seats')
    decreases |ops|
  {
    if ops == [] {
      seats' := seats;
    } else {
      var next := CircleStep(t, ops[0], seats, Apply(t, ops[0]));
      seats' := CircleRun(Apply(t, ops[0]), ops[1..], next);
    }
  }

  // ---- Nobody shares a UID or GID ----

  /** Different seats have different numbers. */
  lemma SeatsApart(t: Table, base: nat, a: Seat, b: Seat)
    requires t.stride <= U32_LIMIT && a != b && a.k < t.stride && b.k < t.stride
    requires a.o != b.o ==> Apart(base, a.o.index, b.o.index, t.stride)
    ensures Slot(Precursor(base, a.o.index, t.stride), a.k) != Slot(Precursor(base, b.o.index, t.stride), b.k)
  {
    if a.o != b.o {
      ApartSlots(base, a.o.index, b.o.index, t.stride, a.k, b.k);
    } else if a.k < b.k {
      SlotsDiffer(Precursor(base, a.o.index, t.stride), a.k, b.k);
    } else {
      SlotsDiffer(Precursor(base, a.o.index, t.stride), b.k, a.k);
    }
  }

  lemma SubjectsApart(t: Table, seats: map<string, Seat>, s: string, s': string)
    requires CircleInv(t, seats) && s in t.users && s' in t.users && s != s'
    ensures t.users[s].uid != t.users[s'].uid && t.users[s].gid != t.users[s'].gid
  {
    assert Seated(t, t.users[s], seats[s]) && Seated(t, t.users[s'], seats[s']);
    SeatsApart(t, t.baseUid, seats[s], seats[s']);
    SeatsApart(t, t.baseGid, seats[s], seats[s']);
  }

  /** Two subjects have the same UID or the same GID. */
  ghost predicate Shares(t: Table) {
    exists s, s' :: s in t.users && s' in t.users && s != s' &&
      (t.users[s].uid == t.users[s'].uid || t.users[s].gid == t.users[s'].gid)
  }

  /**
   IM2 with wrap-around: over every history in which joins use new names and indices whose
   blocks are apart on the circle, no two subjects share a UID or a GID, wherever the blocks
   lie.
   */
  lemma NobodyShares(t0: Table, ops: seq<Op>)
    requires Unused(t0) && t0.stride <= U32_LIMIT && IsHistory(t0, ops)
    ensures !Shares(After(t0, ops))
  {
    var seats := CircleRun(t0, ops, map[]);
    var t := After(t0, ops);
    forall s, s' | s in t.users && s' in t.users && s != s'
      ensures t.users[s].uid != t.users[s'].uid && t.users[s].gid != t.users[s'].gid
    {
      SubjectsApart(t, seats, s, s');
    }
  }

  // ---- Blocks that meet are shared sooner or later ----

  /** A subject name of its own for every letter and positive number. */
  function Name(c: char, n: nat): string {
    seq(n, _ => c)
  }

  /** Nobody's name starts with that letter. */
  ghost predicate Free(t: Table, c: char) {
    forall s :: s in t.users ==> s == "" || s[0] != c
  }

  /** The first `n` users of an organisation. */
  function Joiners(org: string, c: char, n: nat): seq<Op> {
    if n == 0 then []
    else Joiners(org, c, n - 1) + [AssignUser(Name(c, n), Name(c, n), org, "", "")]
  }

  /** What `n` new users do to the table: they take the first `n` slots, and the others stay. */
  ghost predicate Joined(t: Table, org: string, index: nat, c: char, n: nat, t': Table) {
    && t'.orgs == t.orgs && t'.baseUid == t.baseUid && t'.baseGid == t.baseGid && t'.stride == t.stride
    && t'.Offset(org) == n && (forall x :: x != org ==> t'.Offset(x) == t.Offset(x))
    && (forall s :: s in t.users ==> s in t'.users && t'.users[s] == t.users[s])
    && (forall s :: s in t'.users && s !in t.users ==> 0 < |s| <= n && s[0] == c)
    && (n > 0 ==> && Name(c, n) in t'.users
                  && t'.users[Name(c, n)].uid == Slot(Precursor(t.baseUid, index, t.stride), n - 1)
                  && t'.users[Name(c, n)].gid == Slot(Precursor(t.baseGid, index, t.stride), n - 1))
  }

  lemma JoinedOneMore(t: Table, org: string, index: nat, c: char, n: nat, t1: Table, e: UidEntry, t2: Table)
    requires Free(t, c) && Joined(t, org, index, c, n, t1)
    requires e.uid == Slot(Precursor(t.baseUid, index, t.stride), n)
    requires e.gid == Slot(Precursor(t.baseGid, index, t.stride), n)
    requires t2 == t1.(users := t1.users[Name(c, n + 1) := e], nextOffset := t1.nextOffset[org := n + 1])
    ensures Joined(t, org, index, c, n + 1, t2)
  {
    assert Name(c, n + 1)[0] == c;
  }

  /** What an assignment to a new subject of a known organisation with room does. */
  lemma AssignIs(t: Table, name: string, org: string, index: nat, e: UidEntry)
    requires FindOrg(t.orgs, org) == Some(index) && name !in t.users && t.Offset(org) < t.stride
    requires e == t.NewEntry(name, name, org, "", "", index)
    ensures Apply(t, AssignUser(name, name, org, "", ""))
         == t.(users := t.users[name := e], nextOffset := t.nextOffset[org := t.Offset(org) + 1])
    ensures e.uid == Slot(Precursor(t.baseUid, index, t.stride), t.Offset(org))
    ensures e.gid == Slot(Precursor(t.baseGid, index, t.stride), t.Offset(org))
  {
  }

  lemma NextNameIsNew(t: Table, org: string, index: nat, c: char, n: nat, t1: Table)
    requires Free(t, c) && Joined(t, org, index, c, n, t1)
    ensures Name(c, n + 1) !in t1.users
  {
    assert Name(c, n + 1)[0] == c;
  }

  lemma JoinerTakesNext(t: Table, org: string, index: nat, c: char, n: nat, t1: Table)
    requires Free(t, c) && FindOrg(t.orgs, org) == Some(index) && n < t.stride && Joined(t, org, index, c, n, t1)
    ensures Joined(t, org, index, c, n + 1, Apply(t1, AssignUser(Name(c, n + 1), Name(c, n + 1), org, "", "")))
  {
    var name := Name(c, n + 1);
    var e := t1.NewEntry(name, name, org, "", "", index);
    NextNameIsNew(t, org, index, c, n, t1);
    AssignIs(t1, name, org, index, e);
    JoinedOneMore(t, org, index, c, n, t1, e,
                  t1.(users := t1.users[name := e], nextOffset := t1.nextOffset[org := n + 1]));
  }

  lemma {:induction false} JoinersJoin(t: Table, org: string, index: nat, c: char, n: nat)
    requires Free(t, c) && FindOrg(t.orgs, org) == Some(index) && t.Offset(org) == 0 && n <= t.stride
    ensures Joined(t, org, index, c, n, After(t, Joiners(org, c, n)))
  {
    if n > 0 {
      JoinersJoin(t, org, index, c, n - 1);
      var front, op := Joiners(org, c, n - 1), AssignUser(Name(c, n), Name(c, n), org, "", "");
      AfterAppend(t, front, [op]);
      AfterOne(After(t, front), op);
      JoinerTakesNext(t, org, index, c, n - 1, After(t, front));
    }
  }

  /** The two organisations join, and then users of theirs are assigned. */
  function TwoJoin(t: Table, org: string, i: nat, org': string, j: nat): Table {
    t.Join(org, i).Join(org', j)
  }

  ghost predicate AllAssign(ops: seq<Op>) {
    forall k :: 0 <= k < |ops| ==> ops[k].AssignUser?
  }

  ghost predicate CanShare(t: Table) {
    exists users: seq<Op> :: AllAssign(users) && Shares(After(t, users))
  }

  lemma {:induction false} JoinersAssign(org: string, c: char, n: nat)
    ensures AllAssign(Joiners(org, c, n))
  {
    if n > 0 {
      JoinersAssign(org, c, n - 1);
    }
  }

  lemma FoundBoth(t: Table, org: string, i: nat, org': string, j: nat)
    requires Unused(t) && org != org'
    ensures var orgs := TwoJoin(t, org, i, org', j).orgs;
            FindOrg(orgs, org) == Some(i) && FindOrg(orgs, org') == Some(j)
  {
    var orgs := TwoJoin(t, org, i, org', j).orgs;
    assert orgs == [OrgIndex(org, i), OrgIndex(org', j)];
    assert orgs[1..] == [OrgIndex(org', j)];
  }

  /** Slot `k` of the one block is slot `m` of the other, for the UIDs or for the GIDs. */
  ghost predicate Meet(t: Table, i: nat, j: nat, k: nat, m: nat) {
    || Slot(Precursor(t.baseUid, i, t.stride), k) == Slot(Precursor(t.baseUid, j, t.stride), m)
    || Slot(Precursor(t.baseGid, i, t.stride), k) == Slot(Precursor(t.baseGid, j, t.stride), m)
  }

  lemma LastJoinersShare(t2: Table, t3: Table, t4: Table, org: string, i: nat, org': string, j: nat, k: nat, m: nat)
    requires Joined(t2, org, i, 'a', k + 1, t3) && Joined(t3, org', j, 'b', m + 1, t4) && Meet(t2, i, j, k, m)
    ensures Shares(t4)
  {
    var s, s' := Name('a', k + 1), Name('b', m + 1);
    assert s[0] == 'a' && s'[0] == 'b';
    assert t4.users[s] == t3.users[s];
    assert s in t4.users && s' in t4.users && s != s';
  }

  lemma StillFree(t: Table, org: string, index: nat, n: nat, t': Table)
    requires t.users == map[] && Joined(t, org, index, 'a', n, t')
    ensures Free(t', 'b')
  {
  }

  lemma FilledBlocksShare(t2: Table, org: string, i: nat, org': string, j: nat, k: nat, m: nat)
    requires t2.users == map[] && org != org' && k < t2.stride && m < t2.stride && Meet(t2, i, j, k, m)
    requires FindOrg(t2.orgs, org) == Some(i) && FindOrg(t2.orgs, org') == Some(j)
    requires t2.Offset(org) == 0 && t2.Offset(org') == 0
    ensures Shares(After(After(t2, Joiners(org, 'a', k + 1)), Joiners(org', 'b', m + 1)))
  {
    JoinersJoin(t2, org, i, 'a', k + 1);
    var t3 := After(t2, Joiners(org, 'a', k + 1));
    StillFree(t2, org, i, k + 1, t3);
    JoinersJoin(t3, org', j, 'b', m + 1);
    LastJoinersShare(t2, t3, After(t3, Joiners(org', 'b', m + 1)), org, i, org', j, k, m);
  }

  lemma MeetingSlotsShare(t: Table, org: string, i: nat, org': string, j: nat, k: nat, m: nat)
    requires Unused(t) && org != org' && k < t.stride && m < t.stride && Meet(t, i, j, k, m)
    ensures CanShare(TwoJoin(t, org, i, org', j))
  {
    var t2 := TwoJoin(t, org, i, org', j);
    var first, second := Joiners(org, 'a', k + 1), Joiners(org', 'b', m + 1);
    FoundBoth(t, org, i, org', j);
    FilledBlocksShare(t2, org, i, org', j, k, m);
    AfterAppend(t2, first, second);
    JoinersAssign(org, 'a', k + 1);
    JoinersAssign(org', 'b', m + 1);
    assert AllAssign(first + second);
  }

  lemma {:induction false} AssignsAreHistory(t: Table, users: seq<Op>)
    requires AllAssign(users)
    ensures IsHistory(t, users)
    decreases |users|
  {
    if users != [] {
      assert users[0].AssignUser?;
      assert AllAssign(users[1..]) by {
        assert forall k :: 0 <= k < |users[1..]| ==> users[1..][k] == users[k + 1];
      }
      AssignsAreHistory(Apply(t, users[0]), users[1..]);
    }
  }

  lemma ApartNeverShare(t: Table, org: string, i: nat, org': string, j: nat, users: seq<Op>)
    requires Unused(t) && org != org' && t.stride <= U32_LIMIT && BothApart(t, i, j) && AllAssign(users)
    ensures !Shares(After(TwoJoin(t, org, i, org', j), users))
  {
    var joins := [JoinOrg(org, i)] + ([JoinOrg(org', j)] + users);
    var t1 := t.Join(org, i);
    assert joins[1..] == [JoinOrg(org', j)] + users && joins[1..][1..] == users;
    AssignsAreHistory(TwoJoin(t, org, i, org', j), users);
    assert t1.orgs == [OrgIndex(org, i)];
    assert IsHistory(t1, joins[1..]);
    assert IsHistory(t, joins);
    assert After(t, joins) == After(t1, joins[1..]) == After(TwoJoin(t, org, i, org', j), users);
    NobodyShares(t, joins);
  }

  /**
   Exactly when two organisations can come to share a UID or a GID: if and only if their
   blocks are less than a stride apart on the circle of either kind.
   */
  lemma CanShareIff(t: Table, org: string, i: nat, org': string, j: nat)
    requires Unused(t) && org != org' && 0 < t.stride <= U32_LIMIT
    ensures CanShare(TwoJoin(t, org, i, org', j)) <==> !BothApart(t, i, j)
  {
    var t2 := TwoJoin(t, org, i, org', j);
    if BothApart(t, i, j) {
      forall users | AllAssign(users) ensures !Shares(After(t2, users)) {
        ApartNeverShare(t, org, i, org', j, users);
      }
    } else {
      var base := if Apart(t.baseUid, i, j, t.stride) then t.baseGid else t.baseUid;
      var p, q := Precursor(base, i, t.stride), Precursor(base, j, t.stride);
      CollideIff(p, q, t.stride);
      var k: nat, m: nat :| k < t.stride && m < t.stride && SameSlot(p, k, q, m);
      MeetingSlotsShare(t, org, i, org', j, k, m);
    }
  }
}
