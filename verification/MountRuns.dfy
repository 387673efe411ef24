/**
 Runs of the mount manager together with the allocations that use it. An allocation's
 claim is current while the mount it acquired still stands, and stale once that mount was
 taken away under it; the manager itself cannot tell the two apart.
 */
module MountRuns {
  import opened ConfigTypes
  import opened Mounts

  datatype Claim = Claim(image: string, current: bool)

  /** `absorbed` counts, per standing mount, the releases it took from stale claims. */
  datatype World = World(manager: Manager, claims: map<nat, Claim>, absorbed: map<string, nat>)

  datatype Event =
    | Acquire(now: real, alloc: nat, image: string)
    | Release(now: real, alloc: nat)
    | Force(now: real, image: string)
    | Check(now: real)

  function Absorbed(w: World, image: string): nat {
    if image in w.absorbed then w.absorbed[image] else 0
  }

  /** The allocations that use the standing mount of `image`. */
  function Live(w: World, image: string): set<nat> {
    set a | a in w.claims && w.claims[a] == Claim(image, true)
  }

  predicate Enabled(w: World, e: Event) {
    match e
    case Acquire(_, alloc, _) => alloc !in w.claims
    case Release(_, alloc) => alloc in w.claims && !w.manager.ReleasePanics(w.claims[alloc].image)
    case Force(_, _) => true
    case Check(_) => true
  }

  /** The mounts of `gone` disappear: the claims on them go stale. */
  function Unmounted(w: World, manager: Manager, gone: set<string>): World {
    World(manager,
          map a | a in w.claims :: if w.claims[a].image in gone then w.claims[a].(current := false) else w.claims[a],
          w.absorbed - gone)
  }

  function Step(w: World, e: Event): World {
    if !Enabled(w, e) then w
    else
      match e
      case Acquire(_, alloc, image) =>
        w.(manager := w.manager.Acquire(image), claims := w.claims[alloc := Claim(image, true)])
      case Release(now, alloc) =>
        var claim := w.claims[alloc];
        World(w.manager.Release(claim.image, now),
              w.claims - {alloc},
              if !claim.current && claim.image in w.manager.mounts
              then w.absorbed[claim.image := Absorbed(w, claim.image) + 1] else w.absorbed)
      case Force(_, image) =>
        Unmounted(w, w.manager.ForceUnmount(image), {image})
      case Check(now) =>
        var m := w.manager.CheckExpired(now);
        Unmounted(w, m, w.manager.mounts.Keys - m.mounts.Keys)
  }

  function At(w: World, evs: seq<Event>, k: nat): World
    requires k <= |evs|
  {
    if k == 0 then w else Step(At(w, evs, k - 1), evs[k - 1])
  }

  ghost predicate IsRun(w: World, evs: seq<Event>) {
    && (forall k :: 0 <= k < |evs| ==> Enabled(At(w, evs, k), evs[k]))
    && (forall i, j :: 0 <= i <= j < |evs| ==> evs[i].now <= evs[j].now)
  }

  function Initial(base: string, hold: nat): World {
    World(NewManager(base, hold), map[], map[])
  }

  // ---- Conservation of references ----

  /**
   The count of a standing mount is the number of its current users less the releases it
   absorbed from stale ones; its hold timer runs exactly at zero.
   */
  ghost predicate ImageOk(w: World, image: string) {
    if image in w.manager.mounts then
      && w.manager.mounts[image].refcount + Absorbed(w, image) == |Live(w, image)|
      && (w.manager.mounts[image].holdStart.Some? <==> w.manager.mounts[image].refcount == 0)
    else Live(w, image) == {} && image !in w.absorbed
  }

  ghost predicate Inv(w: World) {
    forall image :: ImageOk(w, image)
  }

  lemma AcquireKeeps(w: World, e: Event, image: string)
    requires ImageOk(w, image) && Enabled(w, e) && e.Acquire?
    requires e.image !in w.manager.mounts ==> Live(w, e.image) == {} && e.image !in w.absorbed
    ensures ImageOk(Step(w, e), image)
  {
    LiveAfterAcquire(w, e, image);
  }

  lemma LiveAfterAcquire(w: World, e: Event, image: string)
    requires Enabled(w, e) && e.Acquire?
    ensures Live(Step(w, e), image) == if image == e.image then Live(w, image) + {e.alloc} else Live(w, image)
    ensures e.alloc !in Live(w, image)
  {
  }

  lemma LiveAfterRelease(w: World, e: Event, image: string)
    requires Enabled(w, e) && e.Release?
    ensures Live(Step(w, e), image) == Live(w, image) - {e.alloc}
    ensures e.alloc in Live(w, image) <==> w.claims[e.alloc] == Claim(image, true)
  {
  }

  lemma ReleaseKeeps(w: World, e: Event, image: string)
    requires ImageOk(w, image) && Enabled(w, e) && e.Release?
    ensures ImageOk(Step(w, e), image)
  {
    LiveAfterRelease(w, e, image);
  }

  lemma UnmountKeeps(w: World, manager: Manager, gone: set<string>, image: string)
    requires ImageOk(w, image)
    requires image in gone ==> image !in manager.mounts
    requires image !in gone ==> (image in manager.mounts <==> image in w.manager.mounts)
    requires image !in gone && image in manager.mounts ==> manager.mounts[image] == w.manager.mounts[image]
    ensures ImageOk(Unmounted(w, manager, gone), image)
  {
    var w' := Unmounted(w, manager, gone);
    if image in gone {
      assert Live(w', image) == {};
    } else {
      assert Live(w', image) == Live(w, image);
    }
  }

  lemma StepKeepsInv(w: World, e: Event)
    requires Inv(w)
    ensures Inv(Step(w, e))
  {
    forall image ensures ImageOk(Step(w, e), image) {
      assert ImageOk(w, image);
      if Enabled(w, e) {
        match e {
          case Acquire(_, _, image') =>
            assert ImageOk(w, image');
            AcquireKeeps(w, e, image);
          case Release(_, _) =>
            ReleaseKeeps(w, e, image);
          case Force(_, image') =>
            UnmountKeeps(w, w.manager.ForceUnmount(image'), {image'}, image);
          case Check(now) =>
            var m := w.manager.CheckExpired(now);
            UnmountKeeps(w, m, w.manager.mounts.Keys - m.mounts.Keys, image);
        }
      }
    }
  }

  lemma {:induction false} InvRun(w: World, evs: seq<Event>, k: nat)
    requires Inv(w) && k <= |evs|
    ensures Inv(At(w, evs, k))
  {
    if k > 0 {
      InvRun(w, evs, k - 1);
      StepKeepsInv(At(w, evs, k - 1), evs[k - 1]);
    }
  }

  lemma InitialOk(base: string, hold: nat)
    ensures Inv(Initial(base, hold))
  {
    forall image ensures ImageOk(Initial(base, hold), image) {
      assert Live(Initial(base, hold), image) == {};
    }
  }

  /**
   WI2, exactly: over every run, forced unmounts included, a mount's count equals the
   number of its current users if and only if it absorbed no release of an earlier mount's
   user; its hold timer runs exactly when the count is zero.
   */
  lemma RefcountExactly(base: string, hold: nat, evs: seq<Event>, image: string)
    requires IsRun(Initial(base, hold), evs)
    ensures var w := At(Initial(base, hold), evs, |evs|);
            if image in w.manager.mounts then
              && w.manager.mounts[image].refcount == |Live(w, image)| - Absorbed(w, image)
              && (w.manager.mounts[image].refcount == |Live(w, image)| <==> Absorbed(w, image) == 0)
              && (w.manager.mounts[image].holdStart.Some? <==> w.manager.mounts[image].refcount == 0)
            else Live(w, image) == {}
  {
    InitialOk(base, hold);
    InvRun(Initial(base, hold), evs, |evs|);
    assert ImageOk(At(Initial(base, hold), evs, |evs|), image);
  }

  // ---- Where the images are mounted ----

  /** Every image is mounted at the place its own name gives. */
  ghost predicate PlacesOk(m: Manager, base: string) {
    && m.base == base
    && forall image :: image in m.mounts ==>
         m.mounts[image].imagePath == image && m.mounts[image].mountPoint == MountPoint(base, image)
  }

  lemma {:induction false} PlacesRun(base: string, hold: nat, evs: seq<Event>, k: nat)
    requires k <= |evs|
    ensures PlacesOk(At(Initial(base, hold), evs, k).manager, base)
  {
    if k > 0 {
      PlacesRun(base, hold, evs, k - 1);
      PlacesStep(At(Initial(base, hold), evs, k - 1), evs[k - 1], base);
    }
  }

  lemma PlacesStep(w: World, e: Event, base: string)
    requires PlacesOk(w.manager, base)
    ensures PlacesOk(Step(w, e).manager, base)
  {
  }

  /**
   Over every run, two standing mounts have the same mount point if and only if their file
   names agree once every ".sqfs" in them is removed, whatever their directories.
   */
  lemma SharedPlaceIff(base: string, hold: nat, evs: seq<Event>, image: string, image': string)
    requires var m := At(Initial(base, hold), evs, |evs|).manager;
             image in m.mounts && image' in m.mounts
    ensures var m := At(Initial(base, hold), evs, |evs|).manager;
            && m.mounts[image].imagePath == image
            && (m.mounts[image].mountPoint == m.mounts[image'].mountPoint <==>
                  StripSqfs(LastSegment(image)) == StripSqfs(LastSegment(image')))
  {
    PlacesRun(base, hold, evs, |evs|);
    SamePlace(base, StripSqfs(LastSegment(image)), StripSqfs(LastSegment(image')));
  }

  /** For names that contain the extension only at their end: if and only if the names agree. */
  lemma SharedPlacePlain(base: string, hold: nat, evs: seq<Event>, dir: string, stem: string, dir': string, stem': string)
    requires '/' !in stem && '/' !in stem' && !HasSqfs(stem) && !HasSqfs(stem')
    requires var m := At(Initial(base, hold), evs, |evs|).manager;
             dir + "/" + (stem + ".sqfs") in m.mounts && dir' + "/" + (stem' + ".sqfs") in m.mounts
    ensures var m := At(Initial(base, hold), evs, |evs|).manager;
            m.mounts[dir + "/" + (stem + ".sqfs")].mountPoint == m.mounts[dir' + "/" + (stem' + ".sqfs")].mountPoint
            <==> stem == stem'
  {
    PlacesRun(base, hold, evs, |evs|);
    MountPointOfImage(base, dir, stem);
    MountPointOfImage(base, dir', stem');
    SamePlace(base, stem, stem');
  }

  lemma SamePlace(base: string, a: string, b: string)
    ensures base + "/" + a == base + "/" + b <==> a == b
  {
    assert (base + "/" + a)[|base| + 1..] == a && (base + "/" + b)[|base| + 1..] == b;
  }

  /** Two images of one name in different directories stand at one place, each with a count of its own. */
  lemma SameNameSamePlace(base: string, hold: nat, dir: string, dir': string, name: string)
    returns (evs: seq<Event>)
    requires dir != dir' && '/' !in name
    ensures IsRun(Initial(base, hold), evs)
    ensures var m := At(Initial(base, hold), evs, |evs|).manager;
            var image, image' := dir + "/" + name, dir' + "/" + name;
            && image in m.mounts && image' in m.mounts && image != image'
            && m.mounts[image].refcount == m.mounts[image'].refcount == 1
            && m.mounts[image].mountPoint == m.mounts[image'].mountPoint
  {
    var image, image' := dir + "/" + name, dir' + "/" + name;
    SamePathSameDir(dir, dir', "/" + name);
    assert image == dir + ("/" + name) && image' == dir' + ("/" + name);
    LastSegmentAfterSlash(dir, name);
    LastSegmentAfterSlash(dir', name);
    evs := [Acquire(0.0, 0, image), Acquire(0.0, 1, image')];
    var w := Initial(base, hold);
    assert At(w, evs, 0) == w;
    assert At(w, evs, 1) == Step(w, evs[0]);
    assert At(w, evs, 2) == Step(Step(w, evs[0]), evs[1]);
  }

  lemma SamePathSameDir(a: string, b: string, tail: string)
    requires a != b
    ensures a + tail != b + tail
  {
    if |a| == |b| {
      assert (a + tail)[..|a|] == a && (b + tail)[..|b|] == b;
    }
  }

  // ---- Without forced unmounts ----

  /** Nobody's mount has been taken away. */
  ghost predicate Clean(w: World) {
    (forall image :: Absorbed(w, image) == 0) && forall a :: a in w.claims ==> w.claims[a].current
  }

  ghost predicate ForceFree(evs: seq<Event>) {
    forall k :: 0 <= k < |evs| ==> !evs[k].Force?
  }

  /** A mount somebody uses survives the check, as nobody's release was absorbed. */
  lemma InUseStays(w: World, a: nat, now: real)
    requires Inv(w) && Clean(w) && a in w.claims
    ensures w.claims[a].image in w.manager.CheckExpired(now).mounts
  {
    var image := w.claims[a].image;
    assert a in Live(w, image);
    assert ImageOk(w, image);
  }

  lemma StepKeepsClean(w: World, e: Event)
    requires Inv(w) && Clean(w) && !e.Force?
    ensures Clean(Step(w, e))
  {
    forall image ensures Absorbed(Step(w, e), image) == 0 {
      assert Absorbed(w, image) == 0;
    }
    if e.Check? {
      var m := w.manager.CheckExpired(e.now);
      forall a | a in w.claims ensures w.claims[a].image in m.mounts {
        InUseStays(w, a, e.now);
      }
    }
  }

  lemma {:induction false} CleanRun(w: World, evs: seq<Event>, k: nat)
    requires Inv(w) && Clean(w) && ForceFree(evs) && k <= |evs|
    ensures Inv(At(w, evs, k)) && Clean(At(w, evs, k))
  {
    if k > 0 {
      CleanRun(w, evs, k - 1);
      StepKeepsInv(At(w, evs, k - 1), evs[k - 1]);
      StepKeepsClean(At(w, evs, k - 1), evs[k - 1]);
    }
  }

  /** WI2: every image some allocation uses is mounted, and every count is the number of its users. */
  ghost predicate CountsAreUsers(w: World) {
    forall image :: if image in w.manager.mounts then w.manager.mounts[image].refcount == |Users(w, image)|
                    else Users(w, image) == {}
  }

  /** The allocations that believe to use `image`. */
  function Users(w: World, image: string): set<nat> {
    set a | a in w.claims && w.claims[a].image == image
  }

  lemma CleanCounts(w: World)
    requires Inv(w) && Clean(w)
    ensures CountsAreUsers(w)
    ensures forall a :: a in w.claims ==> !w.manager.ReleasePanics(w.claims[a].image)
  {
    forall image
      ensures if image in w.manager.mounts then w.manager.mounts[image].refcount == |Users(w, image)|
              else Users(w, image) == {}
    {
      assert ImageOk(w, image);
      assert Users(w, image) == Live(w, image);
    }
    forall a | a in w.claims ensures !w.manager.ReleasePanics(w.claims[a].image) {
      assert ImageOk(w, w.claims[a].image);
      assert a in Live(w, w.claims[a].image);
    }
  }

  /** Without forced unmounts WI2 holds throughout, and no release of a user ever panics. */
  lemma CountsAccurate(base: string, hold: nat, evs: seq<Event>)
    requires IsRun(Initial(base, hold), evs) && ForceFree(evs)
    ensures var w := At(Initial(base, hold), evs, |evs|);
            && CountsAreUsers(w)
            && forall a :: a in w.claims ==> !w.manager.ReleasePanics(w.claims[a].image)
  {
    InitialOk(base, hold);
    CleanRun(Initial(base, hold), evs, |evs|);
    CleanCounts(At(Initial(base, hold), evs, |evs|));
  }

  // ---- A forced unmount ----

  /** Every standing mount counts the allocations that use it. */
  ghost predicate CountsMatch(w: World) {
    forall image :: image in w.manager.mounts ==> w.manager.mounts[image].refcount == |Live(w, image)|
  }

  /** Every continuation without forced unmounts keeps the counts right. */
  ghost predicate StaysRight(w: World) {
    forall evs :: IsRun(w, evs) && ForceFree(evs) ==> CountsMatch(At(w, evs, |evs|))
  }

  /** After forcing `image` off, the counts stay right until the next force. */
  ghost predicate ForceIsSafe(w: World, image: string, now: real) {
    StaysRight(Step(w, Force(now, image)))
  }

  lemma {:induction false} SomeoneNew(s: set<nat>) returns (n: nat)
    ensures n !in s
  {
    n := UpperBound(s);
    n := n + 1;
  }

  lemma {:induction false} UpperBound(s: set<nat>) returns (n: nat)
    ensures forall x :: x in s ==> x <= n
    decreases |s|
  {
    n := 0;
    if s != {} {
      var x :| x in s;
      n := UpperBound(s - {x});
      n := if n < x then x else n;
      assert forall y :: y in s ==> y == x || y in s - {x};
    }
  }

  /** A stale claim's release takes a reference from whoever uses the next mount of the image. */
  lemma LateRelease(w: World, stale: nat, now: real) returns (evs: seq<Event>)
    requires Inv(w) && stale in w.claims && !w.claims[stale].current
    ensures IsRun(w, evs) && ForceFree(evs) && !CountsMatch(At(w, evs, |evs|))
  {
    var image := w.claims[stale].image;
    var later := SomeoneNew(w.claims.Keys);
    evs := [Acquire(now, later, image), Release(now, stale)];
    assert At(w, evs, 0) == w;
    var w1 := At(w, evs, 1);
    assert w1 == Step(w, evs[0]);
    assert w1.claims[stale] == w.claims[stale] && image in w1.manager.mounts;
    assert w1.manager.mounts[image].refcount >= 1;
    var w2 := At(w, evs, 2);
    assert w2 == Step(w1, evs[1]);
    assert image in w2.manager.mounts && Absorbed(w2, image) >= 1;
    InvRun(w, evs, 2);
    assert ImageOk(w2, image);
  }

  /** The counts stay right in every continuation if and only if nobody's mount has been taken away. */
  lemma StaysRightIff(w: World)
    requires Inv(w)
    ensures StaysRight(w) <==> Clean(w)
  {
    if Clean(w) {
      forall evs | IsRun(w, evs) && ForceFree(evs) ensures CountsMatch(At(w, evs, |evs|)) {
        CleanRun(w, evs, |evs|);
        CleanMatches(At(w, evs, |evs|));
      }
    } else if image :| Absorbed(w, image) != 0 {
      assert ImageOk(w, image);
      assert At(w, [], 0) == w && !CountsMatch(w);
      assert IsRun(w, []) && ForceFree([]);
    } else {
      var a :| a in w.claims && !w.claims[a].current;
      var evs := LateRelease(w, a, 0.0);
    }
  }

  /**
   A forced unmount leaves all counts right for good if and only if nobody uses the image, no
   earlier forced unmount has left a claim behind, and no other mount has absorbed a release.
   Otherwise a late release of an old user hits the next mount.
   */
  lemma ForceIsSafeIff(w: World, image: string, now: real)
    requires Inv(w)
    ensures ForceIsSafe(w, image, now) <==>
              && Live(w, image) == {}
              && (forall a :: a in w.claims ==> w.claims[a].current)
              && (forall i :: i in w.manager.mounts && i != image ==> Absorbed(w, i) == 0)
  {
    var w' := Step(w, Force(now, image));
    StepKeepsInv(w, Force(now, image));
    StaysRightIff(w');
    CleanAfterForce(w, image, now);
  }

  lemma CleanAfterForce(w: World, image: string, now: real)
    requires Inv(w)
    ensures Clean(Step(w, Force(now, image))) <==>
              && Live(w, image) == {}
              && (forall a :: a in w.claims ==> w.claims[a].current)
              && (forall i :: i in w.manager.mounts && i != image ==> Absorbed(w, i) == 0)
  {
    var w' := Step(w, Force(now, image));
    forall i ensures Absorbed(w', i) == if i == image || i !in w.manager.mounts then 0 else Absorbed(w, i) {
      assert ImageOk(w, i);
    }
    forall a | a in w.claims ensures w'.claims[a].current <==> w.claims[a].current && a !in Live(w, image) {
    }
    assert w'.claims.Keys == w.claims.Keys;
  }

  /** As long as no forced unmount did any harm, it takes no more than an unused image, told by its count. */
  lemma ForceIsSafeWhenClean(w: World, image: string, now: real)
    requires Inv(w) && Clean(w)
    ensures ForceIsSafe(w, image, now) <==> image !in w.manager.mounts || w.manager.mounts[image].refcount == 0
  {
    ForceIsSafeIff(w, image, now);
    assert ImageOk(w, image);
  }

  lemma UsersCounted(w: World, image: string)
    requires Inv(w) && Clean(w) && Live(w, image) != {}
    ensures w.manager.Refcount(image) == Some(|Live(w, image)|)
  {
    assert ImageOk(w, image) && Absorbed(w, image) == 0;
  }

  lemma CleanMatches(w: World)
    requires Inv(w) && Clean(w)
    ensures CountsMatch(w)
  {
    forall image | image in w.manager.mounts ensures w.manager.mounts[image].refcount == |Live(w, image)| {
      assert ImageOk(w, image);
    }
  }

  // ---- Lazy unmount ----

  /** Over every run, a check takes away exactly the mounts that have been at zero for the hold time, and changes no other. */
  lemma CheckRemovesIff(base: string, hold: nat, evs: seq<Event>, image: string, k: nat)
    requires IsRun(Initial(base, hold), evs) && k < |evs| && evs[k].Check?
    requires image in At(Initial(base, hold), evs, k).manager.mounts
    ensures var before, after := At(Initial(base, hold), evs, k).manager.mounts, At(Initial(base, hold), evs, k + 1).manager.mounts;
            && (image !in after <==>
                  && before[image].refcount == 0 && before[image].holdStart.Some?
                  && evs[k].now - before[image].holdStart.value >= hold as real)
            && (image in after ==> after[image] == before[image])
  {
    HoldFixed(Initial(base, hold), evs, k);
  }

  /** From just after event `j` until the state before event `k` the image is mounted and unused. */
  ghost predicate IdleSince(w: World, evs: seq<Event>, image: string, j: nat, k: nat) {
    && j < k <= |evs|
    && forall i :: j < i <= k ==>
         image in At(w, evs, i).manager.mounts && At(w, evs, i).manager.mounts[image].refcount == 0
  }

  /** Event `j` is the release that took the last reference of `image`. */
  ghost predicate DropsToZero(w: World, evs: seq<Event>, image: string, j: nat) {
    && j < |evs| && evs[j].Release?
    && evs[j].alloc in At(w, evs, j).claims && At(w, evs, j).claims[evs[j].alloc].image == image
  }

  predicate Holding(w: World, image: string, since: real) {
    image in w.manager.mounts && w.manager.mounts[image].refcount == 0 && w.manager.mounts[image].holdStart == Some(since)
  }

  lemma HoldingStep(w: World, e: Event, image: string, since: real)
    requires Inv(w) && Holding(Step(w, e), image, since)
    ensures Holding(w, image, since)
         || (e.Release? && e.now == since && e.alloc in w.claims && w.claims[e.alloc].image == image)
  {
    assert ImageOk(w, image);
  }

  /** A running hold timer dates from a release, since which the image was mounted and unused. */
  lemma {:induction false} HoldHasStart(w: World, evs: seq<Event>, image: string, k: nat, since: real) returns (j: nat)
    requires Inv(w) && image !in w.manager.mounts && k <= |evs| && Holding(At(w, evs, k), image, since)
    ensures DropsToZero(w, evs, image, j) && evs[j].now == since && IdleSince(w, evs, image, j, k)
  {
    InvRun(w, evs, k - 1);
    HoldingStep(At(w, evs, k - 1), evs[k - 1], image, since);
    if Holding(At(w, evs, k - 1), image, since) {
      j := HoldHasStart(w, evs, image, k - 1, since);
    } else {
      j := k - 1;
    }
  }

  /**
   WI3: a periodic check takes a mount away only after the image has been mounted and
   unused for at least the hold duration, counted from the release of its last reference.
   */
  lemma UnmountOnlyAfterHold(base: string, hold: nat, evs: seq<Event>, image: string, k: nat) returns (j: nat)
    requires IsRun(Initial(base, hold), evs) && k < |evs| && evs[k].Check?
    requires image in At(Initial(base, hold), evs, k).manager.mounts
    requires image !in At(Initial(base, hold), evs, k + 1).manager.mounts
    ensures DropsToZero(Initial(base, hold), evs, image, j)
    ensures IdleSince(Initial(base, hold), evs, image, j, k)
    ensures evs[k].now - evs[j].now >= hold as real
  {
    var w := Initial(base, hold);
    InitialOk(base, hold);
    HoldFixed(w, evs, k);
    var m := At(w, evs, k).manager;
    assert m.HoldExpired(image, evs[k].now);
    j := HoldHasStart(w, evs, image, k, m.mounts[image].holdStart.value);
  }

  lemma {:induction false} HoldFixed(w: World, evs: seq<Event>, k: nat)
    requires k <= |evs|
    ensures At(w, evs, k).manager.hold == w.manager.hold
  {
    if k > 0 {
      HoldFixed(w, evs, k - 1);
    }
  }
}
