/** Restart of the agent: the mount table is rebuilt from (image, count) pairs. */
module MountRestart {
  import opened ConfigTypes
  import opened Mounts
  import MountRuns

  /** `active` lists every mount of `m` once, with its count. */
  ghost predicate IsSnapshot(active: seq<(string, nat)>, m: Manager) {
    && (forall i, j :: 0 <= i < j < |active| ==> active[i].0 != active[j].0)
    && (forall i :: 0 <= i < |active| ==> active[i].0 in m.mounts && active[i].1 == m.mounts[active[i].0].refcount)
    && (forall image :: image in m.mounts ==> Lists(active, image))
  }

  ghost predicate Lists(active: seq<(string, nat)>, image: string) {
    exists i :: 0 <= i < |active| && active[i].0 == image
  }

  /** The count of the last pair that lists the image. */
  function LastCount(active: seq<(string, nat)>, image: string): Option<nat> {
    if active == [] then None
    else
      var n := |active| - 1;
      if active[n].0 == image then Some(active[n].1) else LastCount(active[..n], image)
  }

  /** What a rebuilt entry looks like. */
  function Rebuilt(base: string, image: string, count: nat, now: real): Mount {
    Mount(image, MountPoint(base, image), count, if count == 0 then Some(now) else None)
  }

  /** An image is rebuilt from the last pair that lists it; anything not listed stays as it was. */
  lemma {:induction false} LastPairWins(m: Manager, active: seq<(string, nat)>, now: real, image: string)
    ensures var r := m.Reconstruct(active, now);
            && r.base == m.base && r.hold == m.hold
            && match LastCount(active, image)
               case Some(count) => image in r.mounts && r.mounts[image] == Rebuilt(m.base, image, count, now)
               case None => (image in r.mounts <==> image in m.mounts)
                            && (image in m.mounts ==> r.mounts[image] == m.mounts[image])
  {
    if active != [] {
      LastPairWins(m, active[..|active| - 1], now, image);
    }
  }

  lemma {:induction false} LastCountIs(active: seq<(string, nat)>, image: string)
    requires forall i, j :: 0 <= i < j < |active| ==> active[i].0 != active[j].0
    ensures LastCount(active, image).None? <==> !Lists(active, image)
    ensures forall i :: 0 <= i < |active| && active[i].0 == image ==> LastCount(active, image) == Some(active[i].1)
  {
    if active != [] {
      var n := |active| - 1;
      var front := active[..n];
      LastCountIs(front, image);
      assert active == front + [active[n]];
      if Lists(active, image) && active[n].0 != image {
        var i :| 0 <= i < |active| && active[i].0 == image;
        assert front[i].0 == image;
      }
      if active[n].0 == image {
        assert Lists(active, image);
      }
    }
  }

  /** From a snapshot, a fresh manager has the same images and counts, and a timer exactly on those at zero. */
  lemma ReconstructIs(m: Manager, active: seq<(string, nat)>, now: real, image: string)
    requires IsSnapshot(active, m)
    ensures var r := NewManager(m.base, m.hold).Reconstruct(active, now);
            && r.hold == m.hold
            && (image in r.mounts <==> image in m.mounts)
            && (image in m.mounts ==> r.mounts[image] == Rebuilt(m.base, image, m.mounts[image].refcount, now))
  {
    LastPairWins(NewManager(m.base, m.hold), active, now, image);
    LastCountIs(active, image);
    if Lists(active, image) {
      var i :| 0 <= i < |active| && active[i].0 == image;
      assert LastCount(active, image) == Some(active[i].1);
    }
  }

  // ---- The restarted manager simulates the other one ----

  datatype Future = Acquires(image: string) | Releases(image: string, now: real) | Checks(now: real)

  predicate Panics(m: Manager, f: Future) {
    f.Releases? && m.ReleasePanics(f.image)
  }

  function Next(m: Manager, f: Future): Manager {
    match f
    case Acquires(image) => m.Acquire(image)
    case Releases(image, now) => if m.ReleasePanics(image) then m else m.Release(image, now)
    case Checks(now) => m.CheckExpired(now)
  }

  function After(m: Manager, fs: seq<Future>, k: nat): Manager
    requires k <= |fs|
  {
    if k == 0 then m else Next(After(m, fs, k - 1), fs[k - 1])
  }

  /**
   `b` agrees with `a` on every image `a` has mounted, and holds it at least as long; what
   only `b` has mounted is unused.
   */
  ghost predicate ImageLags(a: Manager, b: Manager, image: string) {
    if image in a.mounts then
      && image in b.mounts && b.mounts[image].refcount == a.mounts[image].refcount
      && (a.mounts[image].holdStart.Some? <==> a.mounts[image].refcount == 0)
      && (b.mounts[image].holdStart.Some? <==> b.mounts[image].refcount == 0)
      && (a.mounts[image].refcount == 0 ==> a.mounts[image].holdStart.value <= b.mounts[image].holdStart.value)
    else
      image in b.mounts ==> b.mounts[image].refcount == 0
  }

  ghost predicate Lags(a: Manager, b: Manager) {
    a.hold == b.hold && forall image :: ImageLags(a, b, image)
  }

  /** A release is of an image that `a` has mounted, or that `b` has not. */
  predicate Covered(a: Manager, b: Manager, f: Future) {
    f.Releases? ==> f.image in a.mounts || f.image !in b.mounts
  }

  /** A step the one manager survives is survived by the other exactly if it is covered. */
  lemma LagsStep(a: Manager, b: Manager, f: Future)
    requires Lags(a, b) && !Panics(a, f)
    ensures !Panics(b, f) <==> Covered(a, b, f)
    ensures Covered(a, b, f) ==> Lags(Next(a, f), Next(b, f))
  {
    if f.Releases? {
      assert ImageLags(a, b, f.image);
    }
    if Covered(a, b, f) {
      forall image ensures ImageLags(Next(a, f), Next(b, f), image) {
        assert ImageLags(a, b, image);
      }
    }
  }

  predicate PanicFree(m: Manager, fs: seq<Future>, k: nat)
    requires k <= |fs|
  {
    k == 0 || (PanicFree(m, fs, k - 1) && !Panics(After(m, fs, k - 1), fs[k - 1]))
  }

  /** Each of the first `k` releases is covered where it happens. */
  predicate CoveredUpTo(a: Manager, b: Manager, fs: seq<Future>, k: nat)
    requires k <= |fs|
  {
    k == 0 || (CoveredUpTo(a, b, fs, k - 1) && Covered(After(a, fs, k - 1), After(b, fs, k - 1), fs[k - 1]))
  }

  lemma {:induction false} LagsRun(a: Manager, b: Manager, fs: seq<Future>, k: nat)
    requires Lags(a, b) && k <= |fs| && PanicFree(a, fs, k)
    ensures PanicFree(b, fs, k) <==> CoveredUpTo(a, b, fs, k)
    ensures CoveredUpTo(a, b, fs, k) ==> Lags(After(a, fs, k), After(b, fs, k))
  {
    if k > 0 {
      LagsRun(a, b, fs, k - 1);
      if CoveredUpTo(a, b, fs, k - 1) {
        LagsStep(After(a, fs, k - 1), After(b, fs, k - 1), fs[k - 1]);
      }
    }
  }

  function Restarted(m: Manager, active: seq<(string, nat)>, now: real): Manager {
    NewManager(m.base, m.hold).Reconstruct(active, now)
  }

  /** The hold timer of every mount runs exactly at count zero, and started in the past. */
  ghost predicate TimersOk(m: Manager, now: real) {
    forall i :: i in m.mounts ==>
      && (m.mounts[i].holdStart.Some? <==> m.mounts[i].refcount == 0)
      && (m.mounts[i].holdStart.Some? ==> m.mounts[i].holdStart.value <= now)
  }

  lemma RestartLags(m: Manager, active: seq<(string, nat)>, now: real)
    requires IsSnapshot(active, m) && TimersOk(m, now)
    ensures Lags(m, Restarted(m, active, now))
  {
    LastPairWins(NewManager(m.base, m.hold), active, now, "");
    forall i ensures ImageLags(m, Restarted(m, active, now), i) {
      ReconstructIs(m, active, now, i);
    }
  }

  /**
   WI6, exactly: take any future of acquires, releases and checks that a running manager
   survives, and a manager rebuilt at `now` from its snapshot. The rebuilt one survives it too
   if and only if every release is, where it happens, of an image the first still has mounted
   or the second no longer has. In that case every image the first still has mounted is mounted
   with the same count, so none is unmounted earlier, and what is mounted longer is unused.
   */
  lemma RestartIsSafe(m: Manager, active: seq<(string, nat)>, now: real, fs: seq<Future>, k: nat, image: string)
    requires IsSnapshot(active, m) && TimersOk(m, now) && k <= |fs| && PanicFree(m, fs, k)
    ensures var r := Restarted(m, active, now);
            && (PanicFree(r, fs, k) <==> CoveredUpTo(m, r, fs, k))
            && (PanicFree(r, fs, k) && image in After(m, fs, k).mounts ==>
                  After(r, fs, k).Refcount(image) == After(m, fs, k).Refcount(image))
            && (PanicFree(r, fs, k) && image !in After(m, fs, k).mounts && image in After(r, fs, k).mounts ==>
                  After(r, fs, k).mounts[image].refcount == 0)
  {
    var r := Restarted(m, active, now);
    RestartLags(m, active, now);
    LagsRun(m, r, fs, k);
    if CoveredUpTo(m, r, fs, k) {
      assert ImageLags(After(m, fs, k), After(r, fs, k), image);
    }
  }

  /** A check and then a release. */
  lemma CheckThenRelease(m: Manager, check: real, image: string, later: real)
    ensures var fs := [Checks(check), Releases(image, later)];
            PanicFree(m, fs, 2) <==> !m.CheckExpired(check).ReleasePanics(image)
  {
    var fs := [Checks(check), Releases(image, later)];
    assert After(m, fs, 0) == m;
    assert After(m, fs, 1) == m.CheckExpired(check);
    assert PanicFree(m, fs, 1);
  }

  /**
   A release that is not covered: an unused image is rebuilt while its hold runs, so its timer
   starts anew. A check in between makes the running manager forget the image and ignore a
   further release of it, on which the rebuilt manager panics.
   */
  lemma RestartPanics(m: Manager, active: seq<(string, nat)>, now: real, image: string, check: real, later: real)
    requires IsSnapshot(active, m) && TimersOk(m, now) && image in m.mounts && m.mounts[image].refcount == 0
    requires now <= check <= later
    requires m.mounts[image].holdStart.value + m.hold as real <= check < now + m.hold as real
    ensures var fs := [Checks(check), Releases(image, later)];
            PanicFree(m, fs, 2) && !PanicFree(Restarted(m, active, now), fs, 2)
  {
    ReconstructIs(m, active, now, image);
    CheckThenRelease(m, check, image, later);
    CheckThenRelease(Restarted(m, active, now), check, image, later);
  }

  /** In every reachable manager a hold timer runs exactly at zero, and started in the past. */
  lemma ReachableManager(base: string, hold: nat, evs: seq<MountRuns.Event>, now: real, image: string)
    requires MountRuns.IsRun(MountRuns.Initial(base, hold), evs)
    requires forall i :: 0 <= i < |evs| ==> evs[i].now <= now
    ensures var m := MountRuns.At(MountRuns.Initial(base, hold), evs, |evs|).manager;
            image in m.mounts ==>
              && (m.mounts[image].holdStart.Some? <==> m.mounts[image].refcount == 0)
              && (m.mounts[image].holdStart.Some? ==> m.mounts[image].holdStart.value <= now)
  {
    var w0 := MountRuns.Initial(base, hold);
    MountRuns.RefcountExactly(base, hold, evs, image);
    var m := MountRuns.At(w0, evs, |evs|).manager;
    if image in m.mounts && m.mounts[image].refcount == 0 {
      MountRuns.InitialOk(base, hold);
      var j := MountRuns.HoldHasStart(w0, evs, image, |evs|, m.mounts[image].holdStart.value);
    }
  }

  /** WI6 for every manager that any run with allocations leads to, forced unmounts included. */
  lemma RestartAfterAnyRun(base: string, hold: nat, evs: seq<MountRuns.Event>, active: seq<(string, nat)>, now: real,
                           fs: seq<Future>, k: nat, image: string)
    requires MountRuns.IsRun(MountRuns.Initial(base, hold), evs)
    requires forall i :: 0 <= i < |evs| ==> evs[i].now <= now
    requires k <= |fs|
    requires var m := MountRuns.At(MountRuns.Initial(base, hold), evs, |evs|).manager;
             IsSnapshot(active, m) && PanicFree(m, fs, k)
    ensures var m := MountRuns.At(MountRuns.Initial(base, hold), evs, |evs|).manager;
            var r := Restarted(m, active, now);
            && (PanicFree(r, fs, k) <==> CoveredUpTo(m, r, fs, k))
            && (PanicFree(r, fs, k) && image in After(m, fs, k).mounts ==>
                  After(r, fs, k).Refcount(image) == After(m, fs, k).Refcount(image))
            && (PanicFree(r, fs, k) && image !in After(m, fs, k).mounts && image in After(r, fs, k).mounts ==>
                  After(r, fs, k).mounts[image].refcount == 0)
  {
    var m := MountRuns.At(MountRuns.Initial(base, hold), evs, |evs|).manager;
    forall i | i in m.mounts
      ensures m.mounts[i].holdStart.Some? <==> m.mounts[i].refcount == 0
      ensures m.mounts[i].holdStart.Some? ==> m.mounts[i].holdStart.value <= now
    {
      ReachableManager(base, hold, evs, now, i);
    }
    RestartIsSafe(m, active, now, fs, k, image);
  }

  // ---- Without forced unmounts every release is covered ----

  /** What an event of the allocations asks of the manager. */
  function ToFuture(w: MountRuns.World, e: MountRuns.Event): Future
    requires MountRuns.Enabled(w, e) && !e.Force?
  {
    match e
    case Acquire(_, _, image) => Acquires(image)
    case Release(now, alloc) => Releases(w.claims[alloc].image, now)
    case Check(now) => Checks(now)
  }

  /** The first `k` events are possible, none is a forced unmount, and `fs` is what they ask of the manager. */
  ghost predicate Asks(w: MountRuns.World, evs: seq<MountRuns.Event>, fs: seq<Future>, k: nat)
    requires k <= |evs| == |fs|
  {
    k == 0 ||
    (&& Asks(w, evs, fs, k - 1)
     && MountRuns.Enabled(MountRuns.At(w, evs, k - 1), evs[k - 1]) && !evs[k - 1].Force?
     && fs[k - 1] == ToFuture(MountRuns.At(w, evs, k - 1), evs[k - 1]))
  }

  /** A user's release finds its mount standing and counted. */
  lemma ReleaseFindsMount(w: MountRuns.World, e: MountRuns.Event)
    requires MountRuns.Inv(w) && MountRuns.Clean(w) && MountRuns.Enabled(w, e) && !e.Force?
    ensures MountRuns.Step(w, e).manager == Next(w.manager, ToFuture(w, e))
    ensures !Panics(w.manager, ToFuture(w, e))
    ensures e.Release? ==> w.claims[e.alloc].image in w.manager.mounts
  {
    if e.Release? {
      var image := w.claims[e.alloc].image;
      assert e.alloc in MountRuns.Live(w, image);
      assert MountRuns.ImageOk(w, image);
    }
  }

  lemma CoveredOneMore(m: Manager, r: Manager, fs: seq<Future>, k: nat, before: Manager)
    requires 0 < k <= |fs| && before == After(m, fs, k - 1)
    requires PanicFree(m, fs, k - 1) && CoveredUpTo(m, r, fs, k - 1)
    requires !Panics(before, fs[k - 1]) && (fs[k - 1].Releases? ==> fs[k - 1].image in before.mounts)
    ensures PanicFree(m, fs, k) && CoveredUpTo(m, r, fs, k) && After(m, fs, k) == Next(before, fs[k - 1])
  {
  }

  lemma {:induction false} UsersAreCovered(w: MountRuns.World, evs: seq<MountRuns.Event>, fs: seq<Future>, r: Manager, k: nat)
    requires MountRuns.Inv(w) && MountRuns.Clean(w) && k <= |evs| == |fs| && Asks(w, evs, fs, k)
    ensures MountRuns.Inv(MountRuns.At(w, evs, k)) && MountRuns.Clean(MountRuns.At(w, evs, k))
    ensures After(w.manager, fs, k) == MountRuns.At(w, evs, k).manager
    ensures PanicFree(w.manager, fs, k) && CoveredUpTo(w.manager, r, fs, k)
  {
    if k > 0 {
      UsersAreCovered(w, evs, fs, r, k - 1);
      var before := MountRuns.At(w, evs, k - 1);
      MountRuns.StepKeepsInv(before, evs[k - 1]);
      MountRuns.StepKeepsClean(before, evs[k - 1]);
      ReleaseFindsMount(before, evs[k - 1]);
      CoveredOneMore(w.manager, r, fs, k, before.manager);
    }
  }

  /**
   So without forced unmounts a restart at any point is harmless: whatever the allocations do
   from then on, the rebuilt manager never panics, and counts exactly the users of every image
   that is in use.
   */
  lemma RestartWithoutForce(base: string, hold: nat, evs: seq<MountRuns.Event>, more: seq<MountRuns.Event>,
                            active: seq<(string, nat)>, now: real, fs: seq<Future>, image: string)
    requires MountRuns.IsRun(MountRuns.Initial(base, hold), evs) && MountRuns.ForceFree(evs)
    requires forall i :: 0 <= i < |evs| ==> evs[i].now <= now
    requires var w := MountRuns.At(MountRuns.Initial(base, hold), evs, |evs|);
             IsSnapshot(active, w.manager) && |more| == |fs| && Asks(w, more, fs, |more|)
    ensures var w := MountRuns.At(MountRuns.Initial(base, hold), evs, |evs|);
            var r := Restarted(w.manager, active, now);
            var users := MountRuns.Live(MountRuns.At(w, more, |more|), image);
            && PanicFree(r, fs, |fs|)
            && (users != {} ==> After(r, fs, |fs|).Refcount(image) == Some(|users|))
  {
    var w0 := MountRuns.Initial(base, hold);
    var w := MountRuns.At(w0, evs, |evs|);
    MountRuns.InitialOk(base, hold);
    MountRuns.CleanRun(w0, evs, |evs|);
    UsersAreCovered(w, more, fs, Restarted(w.manager, active, now), |more|);
    RestartAfterAnyRun(base, hold, evs, active, now, fs, |fs|, image);
    if MountRuns.Live(MountRuns.At(w, more, |more|), image) != {} {
      MountRuns.UsersCounted(MountRuns.At(w, more, |more|), image);
    }
  }
}
