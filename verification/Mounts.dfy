/** Reference-counted image mounts with lazy unmount. */
module Mounts {
  import opened ConfigTypes

  /** `refcount` is a `u32` in the source; 2^32 simultaneous holders are not modelled. */
  datatype Mount = Mount(imagePath: string, mountPoint: string, refcount: nat, holdStart: Option<real>)

  /** What follows the last slash, or all of it (`rsplit('/').next()`). */
  function LastSegment(path: string): string {
    if '/' !in path then path else LastSegment(path[1..])
  }

  /** All occurrences of ".sqfs" removed, left to right. */
  function StripSqfs(s: string): string {
    if |s| < 5 then s
    else if s[..5] == ".sqfs" then StripSqfs(s[5..])
    else [s[0]] + StripSqfs(s[1..])
  }

  function MountPoint(base: string, image: string): string {
    base + "/" + StripSqfs(LastSegment(image))
  }

  /** The manager's state as a value; `hold` is the hold duration in seconds. */
  datatype Manager = Manager(mounts: map<string, Mount>, hold: nat, base: string) {

    function Acquire(image: string): Manager {
      var m := if image in mounts
               then mounts[image].(refcount := mounts[image].refcount + 1, holdStart := None)
               else Mount(image, MountPoint(base, image), 1, None);
      this.(mounts := mounts[image := m])
    }

    /** A release of a mount nobody holds trips the source's assertion. */
    predicate ReleasePanics(image: string) {
      image in mounts && mounts[image].refcount == 0
    }

    function Release(image: string, now: real): Manager
      requires !ReleasePanics(image)
    {
      if image !in mounts then this
      else
        var n := mounts[image].refcount - 1;
        var m := mounts[image].(refcount := n, holdStart := if n == 0 then Some(now) else mounts[image].holdStart);
        this.(mounts := mounts[image := m])
    }

    function ForceUnmount(image: string): Manager {
      this.(mounts := mounts - {image})
    }

    predicate HoldExpired(image: string, now: real) {
      && image in mounts && mounts[image].refcount == 0
      && mounts[image].holdStart.Some? && now - mounts[image].holdStart.value >= hold as real
    }

    function CheckExpired(now: real): Manager {
      this.(mounts := map image | image in mounts && !HoldExpired(image, now) :: mounts[image])
    }

    function Reconstruct(active: seq<(string, nat)>, now: real): Manager {
      if active == [] then this
      else
        var (image, count) := active[|active| - 1];
        var before := Reconstruct(active[..|active| - 1], now);
        before.(mounts := before.mounts[image := Mount(image, MountPoint(base, image), count,
                                                       if count == 0 then Some(now) else None)])
    }

    function Refcount(image: string): Option<nat> {
      if image in mounts then Some(mounts[image].refcount) else None
    }
  }

  function NewManager(base: string, hold: nat): Manager {
    Manager(map[], hold, base)
  }

  class MountRefManager {
    var mounts: map<string, Mount>
    var holdDuration: nat
    var mountBase: string

    ghost function Value(): Manager
      reads this
    {
      Manager(mounts, holdDuration, mountBase)
    }

    constructor (mountBase: string, holdSeconds: nat)
      ensures Value() == NewManager(mountBase, holdSeconds)
    {
      mounts := map[];
      holdDuration := holdSeconds;
      this.mountBase := mountBase;
    }

    method Acquire(image: string) returns (mountPoint: string)
      modifies this`mounts
      ensures Value() == old(Value()).Acquire(image)
      ensures mountPoint == mounts[image].mountPoint
    {
      if image in mounts {
        var m := mounts[image];
        mounts := mounts[image := m.(refcount := m.refcount + 1, holdStart := None)];
        return m.mountPoint;
      }
      mountPoint := MountPoint(mountBase, image);
      mounts := mounts[image := Mount(image, mountPoint, 1, None)];
    }

    /** The precondition is the source's own assertion (WI2). */
    method Release(image: string, now: real)
      requires !Value().ReleasePanics(image)
      modifies this`mounts
      ensures Value() == old(Value()).Release(image, now)
    {
      if image in mounts {
        var m := mounts[image];
        m := m.(refcount := m.refcount - 1);
        if m.refcount == 0 {
          m := m.(holdStart := Some(now));
        }
        mounts := mounts[image := m];
      }
    }

    method ForceUnmount(image: string)
      modifies this`mounts
      ensures Value() == old(Value()).ForceUnmount(image)
    {
      mounts := mounts - {image};
    }

    /** Removes exactly the expired mounts and lists each once; the list's order is the map's. */
    method CheckExpiredHolds(now: real) returns (expired: seq<string>)
      modifies this`mounts
      ensures Value() == old(Value()).CheckExpired(now)
      ensures forall image :: image in expired <==> old(Value()).HoldExpired(image, now)
      ensures forall i, j :: 0 <= i < j < |expired| ==> expired[i] != expired[j]
    {
      expired := [];
      var todo := mounts.Keys;
      while todo != {}
        invariant todo <= mounts.Keys && mounts == old(mounts)
        invariant forall image :: image in expired <==> image !in todo && Value().HoldExpired(image, now)
        invariant forall i, j :: 0 <= i < j < |expired| ==> expired[i] != expired[j]
        decreases todo
      {
        var path :| path in todo;
        var m := mounts[path];
        if m.refcount == 0 && m.holdStart.Some? && now - m.holdStart.value >= holdDuration as real {
          expired := expired + [path];
        }
        todo := todo - {path};
      }
      var i := 0;
      while i < |expired|
        invariant 0 <= i <= |expired|
        invariant mounts == map image | image in old(mounts) && image !in expired[..i] :: old(mounts)[image]
      {
        mounts := mounts - {expired[i]};
        i := i + 1;
      }
      assert expired[..i] == expired;
      assert Value().mounts == old(Value()).CheckExpired(now).mounts;
    }

    method Reconstruct(active: seq<(string, nat)>, now: real)
      modifies this`mounts
      ensures Value() == old(Value()).Reconstruct(active, now)
    {
      var i := 0;
      assert active[..0] == [];
      while i < |active|
        invariant 0 <= i <= |active|
        invariant Value() == old(Value()).Reconstruct(active[..i], now)
      {
        var (image, count) := active[i];
        mounts := mounts[image := Mount(image, MountPoint(mountBase, image), count,
                                        if count == 0 then Some(now) else None)];
        assert active[..i + 1][..i] == active[..i];
        ReconstructKeepsBase(old(Value()), active[..i], now);
        i := i + 1;
      }
      assert active[..i] == active;
    }
  }

  lemma {:induction false} ReconstructKeepsBase(m: Manager, active: seq<(string, nat)>, now: real)
    ensures m.Reconstruct(active, now).base == m.base && m.Reconstruct(active, now).hold == m.hold
  {
    if active != [] {
      ReconstructKeepsBase(m, active[..|active| - 1], now);
    }
  }

  lemma {:induction false} LastSegmentAfterSlash(dir: string, name: string)
    requires '/' !in name
    ensures LastSegment(dir + "/" + name) == name
    decreases |dir|
  {
    var path := dir + "/" + name;
    assert path[|dir|] == '/';
    if dir == "" {
      assert path[1..] == name;
    } else {
      assert path[1..] == dir[1..] + "/" + name;
      LastSegmentAfterSlash(dir[1..], name);
    }
  }

  /** An extension anywhere is removed and does not disturb what precedes and follows it. */
  lemma {:induction false} StripSqfsSplits(a: string, b: string)
    ensures StripSqfs(a + ".sqfs" + b) == StripSqfs(a) + StripSqfs(b)
    decreases |a|
  {
    var s := a + ".sqfs" + b;
    if a == "" {
      assert s[..5] == ".sqfs" && s[5..] == b;
    } else if |a| < 5 {
      NoStraddle(a, b);
      assert s[0] == a[0] && s[1..] == a[1..] + ".sqfs" + b;
      StripSqfsSplits(a[1..], b);
      assert StripSqfs(a) == a && StripSqfs(a[1..]) == a[1..];
      assert [a[0]] + (a[1..] + StripSqfs(b)) == a + StripSqfs(b);
    } else if a[..5] == ".sqfs" {
      assert s[..5] == ".sqfs" && s[5..] == a[5..] + ".sqfs" + b;
      StripSqfsSplits(a[5..], b);
    } else {
      assert s[..5] == a[..5] && s[0] == a[0] && s[1..] == a[1..] + ".sqfs" + b;
      StripSqfsSplits(a[1..], b);
      assert [a[0]] + (StripSqfs(a[1..]) + StripSqfs(b)) == ([a[0]] + StripSqfs(a[1..])) + StripSqfs(b);
    }
  }

  /** No extension begins before another one and reaches into it. */
  lemma NoStraddle(a: string, b: string)
    requires 0 < |a| < 5
    ensures (a + ".sqfs" + b)[..5] != ".sqfs"
  {
    assert (a + ".sqfs" + b)[..5][|a|] == '.' != ".sqfs"[|a|];
  }

  ghost predicate SqfsAt(s: string, i: nat) {
    i + 5 <= |s| && s[i..i + 5] == ".sqfs"
  }

  ghost predicate HasSqfs(s: string) {
    exists i: nat :: SqfsAt(s, i)
  }

  lemma {:induction false} StripSqfsUnchangedIff(s: string)
    ensures |StripSqfs(s)| <= |s|
    ensures StripSqfs(s) == s <==> !HasSqfs(s)
  {
    if |s| >= 5 {
      if s[..5] == ".sqfs" {
        StripSqfsUnchangedIff(s[5..]);
        assert SqfsAt(s, 0);
      } else {
        StripSqfsUnchangedIff(s[1..]);
        assert StripSqfs(s)[1..] == StripSqfs(s[1..]) && s == [s[0]] + s[1..];
        LaterSqfs(s);
      }
    }
  }

  lemma LaterSqfs(s: string)
    requires |s| >= 5 && s[..5] != ".sqfs"
    ensures HasSqfs(s) <==> HasSqfs(s[1..])
  {
    if HasSqfs(s) {
      var i: nat :| SqfsAt(s, i);
      assert s[0..5] == s[..5];
      assert i > 0 && s[1..][i - 1..i + 4] == s[i..i + 5];
      assert SqfsAt(s[1..], i - 1);
    }
    if HasSqfs(s[1..]) {
      var i: nat :| SqfsAt(s[1..], i);
      assert s[1..][i..i + 5] == s[i + 1..i + 6];
      assert SqfsAt(s, i + 1);
    }
  }

  /**
   An image in whatever directory, or in none, is mounted under its file name without the extension, if
   and only if the rest of that name does not contain the extension as well.
   */
  lemma MountPointOfImage(base: string, dir: string, stem: string)
    requires '/' !in stem
    ensures MountPoint(base, dir + "/" + (stem + ".sqfs")) == base + "/" + stem <==> !HasSqfs(stem)
    ensures MountPoint(base, stem + ".sqfs") == base + "/" + stem <==> !HasSqfs(stem)
  {
    LastSegmentAfterSlash(dir, stem + ".sqfs");
    StripSqfsSplits(stem, "");
    assert stem + ".sqfs" + "" == stem + ".sqfs" && StripSqfs("") == "";
    StripSqfsUnchangedIff(stem);
    assert (base + "/" + stem)[|base| + 1..] == stem;
    assert (base + "/" + StripSqfs(stem))[|base| + 1..] == StripSqfs(stem);
  }
}
