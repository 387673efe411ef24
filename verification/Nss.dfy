/**
 The path from the identity table to a POSIX lookup: the agent flattens the table into
 passwd.db in whatever order its hash map iterates, and the NSS module searches a copy it
 loaded once.
 */
module Nss {
  import opened ConfigTypes
  import opened UidMap
  import opened UidRuns

  /** `db` lists the users of the table, one entry each, in some order of their keys. */
  ghost predicate Flattens(db: seq<UidEntry>, users: map<string, UidEntry>) {
    exists keys: seq<string> :: IsOrderOf(keys, users) && db == Entries(keys, users)
  }

  ghost predicate IsOrderOf(keys: seq<string>, users: map<string, UidEntry>) {
    && (forall i, j :: 0 <= i < j < |keys| ==> keys[i] != keys[j])
    && (forall k :: k in keys <==> k in users)
  }

  ghost function Entries(keys: seq<string>, users: map<string, UidEntry>): seq<UidEntry>
    requires forall k :: k in keys ==> k in users
  {
    seq(|keys|, i requires 0 <= i < |keys| => users[keys[i]])
  }

  /** The agent's cached table and the file it last wrote. */
  class IdentityManager {
    var users: map<string, UidEntry>
    var active: bool
    var passwdDb: Option<seq<UidEntry>>

    constructor (active: bool)
      ensures users == map[] && this.active == active && passwdDb == None
    {
      users, this.active, passwdDb := map[], active, None;
    }

    /** Lists the users in the order the hash map happens to iterate in. */
    method Flatten() returns (db: seq<UidEntry>)
      ensures Flattens(db, users)
    {
      var keys: seq<string> := [];
      db := [];
      var todo := users.Keys;
      while todo != {}
        invariant todo <= users.Keys
        invariant forall k :: k in keys <==> k in users && k !in todo
        invariant forall i, j :: 0 <= i < j < |keys| ==> keys[i] != keys[j]
        invariant db == Entries(keys, users)
        decreases todo
      {
        var k :| k in todo;
        keys := keys + [k];
        db := db + [users[k]];
        todo := todo - {k};
      }
      assert IsOrderOf(keys, users);
    }

    /** `writeOk` says whether the file could be replaced; it is replaced as a whole or not at all. */
    method UpdateMap(newUsers: map<string, UidEntry>, writeOk: bool)
      modifies this`users, this`passwdDb
      ensures users == newUsers
      ensures if active && writeOk then passwdDb.Some? && Flattens(passwdDb.value, newUsers)
              else passwdDb == old(passwdDb)
    {
      users := newUsers;
      if active {
        var db := Flatten();
        if writeOk {
          passwdDb := Some(db);
        }
      }
    }

    /** `UidMap::get_by_uid`: the first match in iteration order. */
    method GetByUid(uid: nat) returns (r: Option<UidEntry>)
      ensures AnswersUid(users, uid, r)
    {
      var todo := users.Keys;
      while todo != {}
        invariant todo <= users.Keys
        invariant forall k :: k in users && k !in todo ==> users[k].uid != uid
        decreases todo
      {
        var k :| k in todo;
        if users[k].uid == uid {
          return Some(users[k]);
        }
        todo := todo - {k};
      }
      r := None;
    }
  }

  /** First match by UID. */
  function FindUid(db: seq<UidEntry>, uid: nat): Option<UidEntry> {
    if db == [] then None else if db[0].uid == uid then Some(db[0]) else FindUid(db[1..], uid)
  }

  /** First match by user name. */
  function FindName(db: seq<UidEntry>, name: string): Option<UidEntry> {
    if db == [] then None else if db[0].username == name then Some(db[0]) else FindName(db[1..], name)
  }

  datatype Passwd = Passwd(name: string, passwd: string, uid: nat, gid: nat, gecos: string, dir: string, shell: string)

  function ToPasswd(e: UidEntry): Passwd {
    Passwd(e.username, "x", e.uid, e.gid, e.subject, e.home, e.shell)
  }

  /** The process-wide cache of the NSS module. `file` is what reading passwd.db yields. */
  class PasswdCache {
    var cache: Option<seq<UidEntry>>

    constructor ()
      ensures cache == None
    {
      cache := None;
    }

    /** Loads the file on first use only; a file that cannot be read counts as empty. */
    method GetPasswdEntries(file: Option<seq<UidEntry>>) returns (entries: seq<UidEntry>)
      modifies this
      ensures cache == Some(entries)
      ensures entries == if old(cache).Some? then old(cache).value
                         else if file.Some? then file.value else []
    {
      if cache.None? {
        cache := Some(if file.Some? then file.value else []);
      }
      entries := cache.value;
    }

    method GetEntryByUid(uid: nat, file: Option<seq<UidEntry>>) returns (r: Option<Passwd>)
      modifies this
      ensures cache.Some? && (old(cache).Some? ==> cache == old(cache))
      ensures r == match FindUid(cache.value, uid)
                   case Some(e) => Some(ToPasswd(e))
                   case None => None
    {
      var entries := GetPasswdEntries(file);
      var i := 0;
      while i < |entries|
        invariant 0 <= i <= |entries|
        invariant FindUid(entries, uid) == FindUid(entries[i..], uid)
      {
        if entries[i].uid == uid {
          return Some(ToPasswd(entries[i]));
        }
        assert entries[i..][1..] == entries[i + 1..];
        i := i + 1;
      }
      r := None;
    }
  }

  // ---- The flat file answers like the table ----

  lemma {:induction false} FindUidIs(db: seq<UidEntry>, uid: nat)
    ensures match FindUid(db, uid)
            case Some(e) => e in db && e.uid == uid && exists i :: FirstWithUid(db, uid, i) && db[i] == e
            case None => forall e :: e in db ==> e.uid != uid
  {
    if db != [] {
      FindUidIs(db[1..], uid);
      assert db == [db[0]] + db[1..];
      if db[0].uid == uid {
        assert FirstWithUid(db, uid, 0);
      } else if FindUid(db[1..], uid).Some? {
        var i :| FirstWithUid(db[1..], uid, i) && db[1..][i] == FindUid(db[1..], uid).value;
        assert FirstWithUid(db, uid, i + 1);
      }
    }
  }

  ghost predicate FirstWithUid(db: seq<UidEntry>, uid: nat, i: int) {
    0 <= i < |db| && db[i].uid == uid && forall j :: 0 <= j < i ==> db[j].uid != uid
  }

  lemma EntriesAreUsers(db: seq<UidEntry>, users: map<string, UidEntry>)
    requires Flattens(db, users)
    ensures forall e :: e in db ==> exists k :: k in users && users[k] == e
    ensures forall k :: k in users ==> users[k] in db
  {
    var keys :| IsOrderOf(keys, users) && db == Entries(keys, users);
    forall e | e in db ensures exists k :: k in users && users[k] == e {
      var i :| 0 <= i < |db| && db[i] == e;
      assert keys[i] in keys && users[keys[i]] == e;
    }
    forall k | k in users ensures users[k] in db {
      assert k in keys;
      var i :| 0 <= i < |keys| && keys[i] == k;
      assert db[i] == users[k];
    }
  }

  /** What `UidMap::get_by_uid` may return: some user of the table with that UID, or nothing if there is none. */
  ghost predicate AnswersUid(users: map<string, UidEntry>, uid: nat, r: Option<UidEntry>) {
    match r
    case Some(e) => e.uid == uid && exists k :: k in users && users[k] == e
    case None => forall k :: k in users ==> users[k].uid != uid
  }

  /** A first match in any order is an answer of the table. */
  lemma FileAnswers(db: seq<UidEntry>, users: map<string, UidEntry>, uid: nat)
    requires Flattens(db, users)
    ensures AnswersUid(users, uid, FindUid(db, uid))
  {
    FindUidIs(db, uid);
    EntriesAreUsers(db, users);
  }

  /**
   For every federation history and every order in which the table is written out, the
   NSS module's first-match lookup gives the one answer the table's own lookup can give.
   */
  lemma NssAgreesWithTable(t0: Table, ops: seq<Op>, db: seq<UidEntry>, uid: nat, r: Option<UidEntry>)
    requires Unused(t0) && IsRun(t0, ops) && Flattens(db, After(t0, ops).users)
    ensures AnswersUid(After(t0, ops).users, uid, r) <==> r == FindUid(db, uid)
  {
    InvRun(t0, ops);
    var t := After(t0, ops);
    FileAnswers(db, t.users, uid);
    UniqueAnswer(t, uid, FindUid(db, uid), r);
  }

  /**
   From assignment to lookup: a new user's UID, looked up in a file written afterwards in any
   order, yields that user's name, numbers, subject, home and shell.
   */
  lemma AssignedLookup(t: Table, subject: string, username: string, org: string, home: string, shell: string,
                       t': Table, e: UidEntry, db: seq<UidEntry>)
    requires Inv(t) && subject !in t.users && t.Assign(subject, username, org, home, shell) == (t', Assigned(e))
    requires Flattens(db, t'.users)
    ensures FindUid(db, e.uid) == Some(e)
    ensures ToPasswd(e) == Passwd(name := username, passwd := "x", uid := e.uid, gid := e.gid, gecos := subject,
                                  dir := home, shell := shell)
  {
    AssignKeepsInv(t, subject, username, org, home, shell);
    EntryGiven(t, subject, username, org, home, shell, t', e);
    FileAnswers(db, t'.users, e.uid);
    AnswerIs(t', subject, e.uid, FindUid(db, e.uid));
  }

  lemma EntryGiven(t: Table, subject: string, username: string, org: string, home: string, shell: string,
                   t': Table, e: UidEntry)
    requires subject !in t.users && t.Assign(subject, username, org, home, shell) == (t', Assigned(e))
    ensures subject in t'.users && t'.users[subject] == e
    ensures e.subject == subject && e.username == username && e.home == home && e.shell == shell && e.org == org
  {
  }

  lemma AnswerIs(t: Table, subject: string, uid: nat, r: Option<UidEntry>)
    requires Inv(t) && subject in t.users && t.users[subject].uid == uid && AnswersUid(t.users, uid, r)
    ensures r == Some(t.users[subject])
  {
    UniqueAnswer(t, uid, r, Some(t.users[subject]));
  }

  lemma UniqueAnswer(t: Table, uid: nat, a: Option<UidEntry>, b: Option<UidEntry>)
    requires Inv(t) && AnswersUid(t.users, uid, a)
    ensures AnswersUid(t.users, uid, b) <==> a == b
  {
    if AnswersUid(t.users, uid, b) && a.Some? && b.Some? {
      var k :| k in t.users && t.users[k] == a.value;
      var k' :| k' in t.users && t.users[k'] == b.value;
      if k != k' {
        UidsDistinct(t, k, k');
      }
    }
  }

  // ---- Lookup by name depends on the order ----

  ghost predicate SharedName(users: map<string, UidEntry>, name: string) {
    exists k, k' :: k in users && k' in users && k != k' && users[k].username == users[k'].username == name
  }

  lemma {:induction false} FindNameIs(db: seq<UidEntry>, name: string)
    ensures match FindName(db, name)
            case Some(e) => e in db && e.username == name
            case None => forall e :: e in db ==> e.username != name
  {
    if db != [] {
      FindNameIs(db[1..], name);
      assert db == [db[0]] + db[1..];
    }
  }

  /** Any user can come first. */
  lemma OrderStartingWith(users: map<string, UidEntry>, first: string) returns (keys: seq<string>)
    requires first in users
    ensures IsOrderOf(keys, users) && keys != [] && keys[0] == first
  {
    var rest := OrderOfSet(users.Keys - {first});
    keys := [first] + rest;
  }

  lemma {:induction false} OrderOfSet(s: set<string>) returns (keys: seq<string>)
    ensures forall i, j :: 0 <= i < j < |keys| ==> keys[i] != keys[j]
    ensures forall k :: k in keys <==> k in s
    decreases |s|
  {
    if s == {} {
      keys := [];
    } else {
      var k :| k in s;
      var rest := OrderOfSet(s - {k});
      keys := [k] + rest;
    }
  }

  /** The answer to a lookup by name is the same for every order of the file. */
  ghost predicate NameLookupDetermined(users: map<string, UidEntry>, name: string) {
    forall db, db' :: Flattens(db, users) && Flattens(db', users) ==> FindName(db, name) == FindName(db', name)
  }

  /**
   User names are not unique across organisations, and a lookup by name is independent of
   the file's order if and only if at most one user carries the name.
   */
  lemma NameLookupDeterminedIff(users: map<string, UidEntry>, name: string)
    requires forall k :: k in users ==> users[k].subject == k
    ensures NameLookupDetermined(users, name) <==> !SharedName(users, name)
  {
    if SharedName(users, name) {
      var k, k' :| k in users && k' in users && k != k' && users[k].username == users[k'].username == name;
      var keys := OrderStartingWith(users, k);
      var keys' := OrderStartingWith(users, k');
      assert Flattens(Entries(keys, users), users) && Flattens(Entries(keys', users), users);
      assert FindName(Entries(keys, users), name) == Some(users[k]);
      assert FindName(Entries(keys', users), name) == Some(users[k']);
    } else {
      forall db, db' | Flattens(db, users) && Flattens(db', users)
        ensures FindName(db, name) == FindName(db', name)
      {
        FindNameIs(db, name);
        FindNameIs(db', name);
        EntriesAreUsers(db, users);
        EntriesAreUsers(db', users);
      }
    }
  }

  // ---- The cache is never refreshed ----

  ghost predicate HoldsUid(users: map<string, UidEntry>, uid: nat) {
    exists k :: k in users && users[k].uid == uid
  }

  /** Whoever holds the UID belongs to an organisation that does not depart. */
  ghost predicate HolderStays(t: Table, ops: seq<Op>, uid: nat) {
    forall k :: k in t.users && t.users[k].uid == uid ==> NeverCollects(ops, t.users[k].org)
  }

  /** With the holder of the UID still there, a stale answer is right unless somebody new holds it. */
  lemma HolderAgreesIff(users: map<string, UidEntry>, users': map<string, UidEntry>, uid: nat, r: Option<UidEntry>)
    requires AnswersUid(users, uid, r)
    requires forall k :: k in users && users[k].uid == uid ==> k in users' && users'[k] == users[k]
    ensures AnswersUid(users', uid, r) <==> HoldsUid(users, uid) || !HoldsUid(users', uid)
  {
    if r.Some? {
      var k :| k in users && users[k] == r.value;
      assert k in users' && users'[k] == r.value;
    }
  }

  /**
   A process that loaded the file at `t` and looks a UID up after a further history, in which
   the holder's organisation does not depart, gets the current answer if and only if the UID
   was not given out in the meantime. (The module's own documentation promises a reload, the
   code has none.)
   */
  lemma StaleCacheAgreesIff(t: Table, ops: seq<Op>, db: seq<UidEntry>, uid: nat)
    requires HolderStays(t, ops, uid) && Flattens(db, t.users)
    ensures AnswersUid(After(t, ops).users, uid, FindUid(db, uid))
       <==> HoldsUid(t.users, uid) || !HoldsUid(After(t, ops).users, uid)
  {
    var t' := After(t, ops);
    FileAnswers(db, t.users, uid);
    forall k | k in t.users && t.users[k].uid == uid ensures k in t'.users && t'.users[k] == t.users[k] {
      AssignmentStable(t, ops, k);
    }
    HolderAgreesIff(t.users, t'.users, uid, FindUid(db, uid));
  }

  /** Operation `i` gives `e` to a subject that has no entry, and its organisation stays from then on. */
  ghost predicate GivenAt(t: Table, ops: seq<Op>, i: nat, e: UidEntry) {
    && i < |ops|
    && e.subject !in After(t, ops[..i]).users
    && e.subject in After(t, ops[..i + 1]).users && After(t, ops[..i + 1]).users[e.subject] == e
    && NeverCollects(ops[i + 1..], e.org)
  }

  ghost predicate GivenAnew(t: Table, ops: seq<Op>, e: UidEntry) {
    exists i: nat :: GivenAt(t, ops, i, e)
  }

  lemma GivenStays(t: Table, ops: seq<Op>, i: nat, e: UidEntry)
    requires GivenAt(t, ops, i, e)
    ensures e.subject in After(t, ops).users && After(t, ops).users[e.subject] == e
  {
    assert ops == ops[..i + 1] + ops[i + 1..];
    AfterAppend(t, ops[..i + 1], ops[i + 1..]);
    AssignmentStable(After(t, ops[..i + 1]), ops[i + 1..], e.subject);
  }

  lemma NeverCollectsSnoc(ops: seq<Op>, op: Op, org: string)
    ensures NeverCollects(ops + [op], org) <==> NeverCollects(ops, org) && op != CollectOrg(org)
  {
    assert (ops + [op])[|ops|] == op;
    assert forall i :: 0 <= i < |ops| ==> (ops + [op])[i] == ops[i];
  }

  lemma GivenOneMore(t: Table, ops: seq<Op>, op: Op, i: nat, e: UidEntry)
    requires GivenAt(t, ops, i, e) && op != CollectOrg(e.org)
    ensures GivenAt(t, ops + [op], i, e)
  {
    var all := ops + [op];
    assert all[..i] == ops[..i] && all[..i + 1] == ops[..i + 1];
    assert all[i + 1..] == ops[i + 1..] + [op];
    NeverCollectsSnoc(ops[i + 1..], op, e.org);
  }

  lemma GivenLast(t: Table, ops: seq<Op>, op: Op, e: UidEntry)
    requires e.subject !in After(t, ops).users
    requires e.subject in After(t, ops + [op]).users && After(t, ops + [op]).users[e.subject] == e
    ensures GivenAt(t, ops + [op], |ops|, e)
  {
    var all := ops + [op];
    assert all[..|ops|] == ops && all[..|ops| + 1] == all && all[|ops| + 1..] == [];
  }

  /** An operation keeps an entry as it is, or takes it away with its organisation. */
  lemma EntryBefore(t: Table, op: Op, k: string)
    requires k in Apply(t, op).users && k in t.users
    ensures Apply(t, op).users[k] == t.users[k] && op != CollectOrg(t.users[k].org)
  {
  }

  /** Where an entry comes from: it was there and has stayed, or it was given out since and has stayed. */
  lemma {:induction false} EntryOrigin(t: Table, ops: seq<Op>, e: UidEntry)
    requires e.subject in After(t, ops).users && After(t, ops).users[e.subject] == e
    ensures || (e.subject in t.users && t.users[e.subject] == e && NeverCollects(ops, e.org))
            || GivenAnew(t, ops, e)
    decreases |ops|
  {
    if ops != [] {
      var front, op := ops[..|ops| - 1], ops[|ops| - 1];
      assert ops == front + [op];
      AfterAppend(t, front, [op]);
      AfterOne(After(t, front), op);
      if e.subject in After(t, front).users {
        EntryBefore(After(t, front), op, e.subject);
        EntryOrigin(t, front, e);
        NeverCollectsSnoc(front, op, e.org);
        if GivenAnew(t, front, e) {
          var i: nat :| GivenAt(t, front, i, e);
          GivenOneMore(t, front, op, i, e);
        }
      } else {
        GivenLast(t, front, op, e);
      }
    }
  }

  /** An entry of the table is there after the history if and only if its origin says so. */
  lemma EntryStandsIff(t: Table, ops: seq<Op>, e: UidEntry)
    ensures (e.subject in After(t, ops).users && After(t, ops).users[e.subject] == e)
       <==> || (e.subject in t.users && t.users[e.subject] == e && NeverCollects(ops, e.org))
            || GivenAnew(t, ops, e)
  {
    if e.subject in After(t, ops).users && After(t, ops).users[e.subject] == e {
      EntryOrigin(t, ops, e);
    } else if GivenAnew(t, ops, e) {
      var i: nat :| GivenAt(t, ops, i, e);
      GivenStays(t, ops, i, e);
    } else if e.subject in t.users && t.users[e.subject] == e && NeverCollects(ops, e.org) {
      AssignmentStable(t, ops, e.subject);
    }
  }

  /**
   Over every history, departures included. A cached answer that names a person is right if
   and only if that person's organisation never departed, or the very same entry was given to
   the person anew and the organisation has stayed since. A cached answer that names nobody is
   right if and only if no entry with that UID was given out whose organisation has stayed since.
   */
  lemma StaleCacheExactly(t: Table, ops: seq<Op>, db: seq<UidEntry>, uid: nat)
    requires Inv(t) && IsRun(t, ops) && Flattens(db, t.users)
    ensures AnswersUid(After(t, ops).users, uid, FindUid(db, uid)) <==>
              match FindUid(db, uid)
              case Some(e) => NeverCollects(ops, e.org) || GivenAnew(t, ops, e)
              case None => forall e: UidEntry :: e.uid == uid ==> !GivenAnew(t, ops, e)
  {
    InvRun(t, ops);
    FileAnswers(db, t.users, uid);
    match FindUid(db, uid)
    case Some(e) =>
      EntryStandsIff(t, ops, e);
    case None =>
      forall e: UidEntry | e.uid == uid
        ensures GivenAnew(t, ops, e) <==> e.subject in After(t, ops).users && After(t, ops).users[e.subject] == e
      {
        EntryStandsIff(t, ops, e);
      }
      NobodyHoldsIff(After(t, ops).users, uid);
  }

  lemma NobodyHoldsIff(users: map<string, UidEntry>, uid: nat)
    requires forall k :: k in users ==> users[k].subject == k
    ensures !HoldsUid(users, uid) <==>
              forall e: UidEntry :: e.uid == uid ==> !(e.subject in users && users[e.subject] == e)
  {
    if HoldsUid(users, uid) {
      var k :| k in users && users[k].uid == uid;
      assert users[k].subject in users;
    }
  }

  /** An organisation leaves, another takes over its index, and a first user is assigned there. */
  function TakeOver(o: OrgIndex, heir: string, user: Op): seq<Op> {
    [CollectOrg(o.org), JoinOrg(heir, o.index), user]
  }

  ghost predicate CanTakeOver(t: Table, o: OrgIndex, heir: string, user: Op) {
    && o in t.orgs && (forall o' :: o' in t.orgs && o' != o ==> o'.org != heir)
    && user.AssignUser? && user.org == heir && user.subject !in t.users
  }

  lemma HeirCanJoin(t: Table, o: OrgIndex, heir: string)
    requires Inv(t) && o in t.orgs && forall o' :: o' in t.orgs && o' != o ==> o'.org != heir
    ensures Enabled(t.Collect(o.org), JoinOrg(heir, o.index))
  {
    var t1 := t.Collect(o.org);
    forall o' | o' in t1.orgs ensures o'.org != heir && o'.index != o.index {
      DropOrgKeeps(t.orgs, o.org, o');
    }
  }

  /** In a freshly joined organisation with room, the first user gets the first slot of its block. */
  lemma FirstSlot(t: Table, org: string, index: nat, user: Op)
    requires Inv(t) && Enabled(t, JoinOrg(org, index)) && 0 < t.stride
    requires user.AssignUser? && user.org == org && user.subject !in t.users
    ensures var t' := Apply(t.Join(org, index), user);
            && user.subject in t'.users && t'.users == t.users[user.subject := t'.users[user.subject]]
            && t'.users[user.subject].subject == user.subject
            && t'.users[user.subject].uid == Start(t.baseUid, index, t.stride)
  {
    var t1 := t.Join(org, index);
    JoinKeepsRegistry(t, org, index);
    FindOrgIs(t1.orgs, org);
    var o := OrgIndex(org, index);
    assert o in t1.orgs;
    assert FindOrg(t1.orgs, org) == Some(index);
    NewEntryExact(t1, user.subject, user.username, o, user.home, user.shell);
  }

  lemma TakeOverIs(t: Table, o: OrgIndex, heir: string, user: Op)
    ensures After(t, TakeOver(o, heir, user)) == Apply(t.Collect(o.org).Join(heir, o.index), user)
    ensures IsRun(t, TakeOver(o, heir, user)) <==>
              Enabled(t.Collect(o.org), JoinOrg(heir, o.index)) && Enabled(t.Collect(o.org).Join(heir, o.index), user)
  {
    var t1 := t.Collect(o.org);
    var t2 := t1.Join(heir, o.index);
    var ops := TakeOver(o, heir, user);
    assert ops[1..] == [JoinOrg(heir, o.index), user] && ops[1..][1..] == [user] && [user][1..] == [];
    assert After(t2, [user]) == After(Apply(t2, user), []) == Apply(t2, user);
    assert After(t1, ops[1..]) == After(t2, [user]);
    assert IsRun(Apply(t2, user), []);
    assert IsRun(t2, [user]) <==> Enabled(t2, user);
    assert IsRun(t1, ops[1..]) <==> Enabled(t1, JoinOrg(heir, o.index)) && IsRun(t2, [user]);
  }

  lemma HeirGetsUid(t: Table, o: OrgIndex, heir: string, user: Op)
    requires Inv(t) && CanTakeOver(t, o, heir, user) && 0 < t.stride
    ensures IsRun(t, TakeOver(o, heir, user))
    ensures var now := After(t, TakeOver(o, heir, user)).users;
            && user.subject in now && now == Remaining(t.users, o.org)[user.subject := now[user.subject]]
            && now[user.subject].subject == user.subject && now[user.subject].uid == UidStart(t, o)
  {
    CollectKeepsInv(t, o.org);
    HeirCanJoin(t, o, heir);
    TakeOverIs(t, o, heir, user);
    FirstSlot(t.Collect(o.org), heir, o.index, user);
  }

  lemma GoneIsNoAnswer(users: map<string, UidEntry>, now: map<string, UidEntry>, org: string, gone: string, subject: string)
    requires forall k :: k in users ==> users[k].subject == k
    requires gone in users && users[gone].org == org && subject !in users && subject in now
    requires now == Remaining(users, org)[subject := now[subject]] && now[subject].subject == subject
    ensures !AnswersUid(now, users[gone].uid, Some(users[gone]))
  {
  }

  /**
   A departure of the holder's organisation breaks that, for every table: once another organisation has joined on the
   departed one's index, its first user gets the UID of the departed one's first user, and
   a process that loaded its file before still names the person who left.
   */
  lemma StaleCacheAfterDeparture(t: Table, o: OrgIndex, heir: string, user: Op, gone: string, db: seq<UidEntry>)
    requires Inv(t) && CanTakeOver(t, o, heir, user) && Flattens(db, t.users)
    requires gone in t.users && t.users[gone].org == o.org && t.users[gone].uid == UidStart(t, o)
    ensures IsRun(t, TakeOver(o, heir, user))
    ensures var now := After(t, TakeOver(o, heir, user)).users;
            && user.subject in now && now[user.subject].uid == t.users[gone].uid
            && FindUid(db, t.users[gone].uid) == Some(t.users[gone])
            && !AnswersUid(now, t.users[gone].uid, FindUid(db, t.users[gone].uid))
  {
    var uid := t.users[gone].uid;
    var home := InBlock(t, gone);
    HeirGetsUid(t, o, heir, user);
    GoneIsNoAnswer(t.users, After(t, TakeOver(o, heir, user)).users, o.org, gone, user.subject);
    FileAnswers(db, t.users, uid);
    UniqueAnswer(t, uid, FindUid(db, uid), Some(t.users[gone]));
  }
}
