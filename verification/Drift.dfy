/**
 Drift evaluation and the commit window it buys. `f64` values are mathematical reals, and
 the square root in the magnitude is any non-negative number with the right square.
 */
module Drift {
  import opened ConfigTypes

  datatype ObserverEvent = ObserverEvent(category: string, path: string)

  datatype Dimension = Mounts | Files | Network | Services | Kernel | Packages | Gpu

  /** The dimension an event category adds to; other categories are ignored. */
  function DimensionOf(category: string): Option<Dimension> {
    if category == "mount" then Some(Mounts)
    else if category == "file" then Some(Files)
    else if category == "network" then Some(Network)
    else if category == "service" then Some(Services)
    else if category == "kernel" then Some(Kernel)
    else if category == "package" then Some(Packages)
    else if category == "gpu" then Some(Gpu)
    else None
  }

  /** One real per dimension: a drift vector, or the weights. */
  datatype Vector = Vector(mounts: real, files: real, network: real, services: real, kernel: real, packages: real, gpu: real) {
    function At(d: Dimension): real {
      match d
      case Mounts => mounts
      case Files => files
      case Network => network
      case Services => services
      case Kernel => kernel
      case Packages => packages
      case Gpu => gpu
    }

    function Bump(d: Dimension): Vector {
      match d
      case Mounts => this.(mounts := mounts + 1.0)
      case Files => this.(files := files + 1.0)
      case Network => this.(network := network + 1.0)
      case Services => this.(services := services + 1.0)
      case Kernel => this.(kernel := kernel + 1.0)
      case Packages => this.(packages := packages + 1.0)
      case Gpu => this.(gpu := gpu + 1.0)
    }
  }

  const NO_DRIFT: Vector := Vector(0.0, 0.0, 0.0, 0.0, 0.0, 0.0, 0.0)

  // ---- The blacklist ----

  /** A match either answers or panics on a slice outside the string. */
  datatype GlobResult = Answer(matched: bool) | Panic

  predicate EndsWith(s: string, suffix: string) {
    |suffix| <= |s| && s[|s| - |suffix|..] == suffix
  }

  predicate StartsWith(s: string, prefix: string) {
    |prefix| <= |s| && s[..|prefix|] == prefix
  }

  /** `rest[1..]` is a byte slice: it needs a first character, and one of a single byte. */
  predicate SliceableFromOne(rest: string) {
    rest != "" && rest[0] < 128 as char
  }

  function MatchesGlob(pattern: string, path: string): GlobResult {
    if EndsWith(pattern, "/**") then
      Answer(StartsWith(path, pattern[..|pattern| - 3]))
    else if EndsWith(pattern, "/*") then
      var prefix := pattern[..|pattern| - 2];
      if !StartsWith(path, prefix) then Answer(false)
      else
        var rest := path[|prefix|..];
        if SliceableFromOne(rest) then Answer('/' !in rest[1..]) else Panic
    else Answer(pattern == path)
  }

  /** What the documentation says of `*`: one path segment below the prefix. */
  ghost predicate IsChild(prefix: string, path: string) {
    exists segment: string :: path == prefix + "/" + segment && '/' !in segment
  }

  lemma IsChildIff(prefix: string, path: string)
    ensures IsChild(prefix, path)
       <==> StartsWith(path, prefix) && |path| > |prefix| && path[|prefix|] == '/' && '/' !in path[|prefix| + 1..]
  {
    if IsChild(prefix, path) {
      var segment: string :| path == prefix + "/" + segment && '/' !in segment;
      assert path[..|prefix|] == prefix && path[|prefix| + 1..] == segment;
    }
    if StartsWith(path, prefix) && |path| > |prefix| && path[|prefix|] == '/' {
      assert path == prefix + "/" + path[|prefix| + 1..];
    }
  }

  lemma SingleStarUnfolds(prefix: string, path: string)
    ensures MatchesGlob(prefix + "/*", path)
         == if !StartsWith(path, prefix) then Answer(false)
            else if SliceableFromOne(path[|prefix|..]) then Answer('/' !in path[|prefix|..][1..]) else Panic
  {
    var pattern := prefix + "/*";
    assert pattern[|pattern| - 2..] == "/*";
    assert pattern[|pattern| - 2] == '/' != "/**"[1];
    assert |pattern| >= 3 ==> pattern[|pattern| - 3..][1] == pattern[|pattern| - 2];
    assert pattern[..|pattern| - 2] == prefix;
  }

  /**
   A single-star pattern panics exactly when the path is the prefix itself or goes on with
   a character of several bytes, and when it answers, the answer is the documented one
   unless the path goes on with something other than a slash.
   */
  lemma SingleStarExactly(prefix: string, path: string)
    ensures MatchesGlob(prefix + "/*", path).Panic?
       <==> StartsWith(path, prefix) && (|path| == |prefix| || path[|prefix|] as int >= 128)
    ensures MatchesGlob(prefix + "/*", path).Answer? ==>
              (MatchesGlob(prefix + "/*", path).matched == IsChild(prefix, path) <==>
                 !StartsWith(path, prefix) || path[|prefix|] == '/' || '/' in path[|prefix| + 1..])
  {
    SingleStarUnfolds(prefix, path);
    IsChildIff(prefix, path);
    if StartsWith(path, prefix) && |path| > |prefix| {
      assert path[|prefix|..][1..] == path[|prefix| + 1..];
    }
  }

  /** Two such paths: the directory itself, and a sibling taken for a child. */
  lemma SingleStarSurprises()
    ensures MatchesGlob("/etc" + "/*", "/etc").Panic?
    ensures MatchesGlob("/etc" + "/*", "/etcetera") == Answer(true) && !IsChild("/etc", "/etcetera")
  {
    SingleStarUnfolds("/etc", "/etc");
    SingleStarUnfolds("/etc", "/etcetera");
    IsChildIff("/etc", "/etcetera");
    assert "/etc"[..4] == "/etc" && "/etc"[4..] == "";
    assert "/etcetera"[..4] == "/etc" && "/etcetera"[4..] == "etera";
  }

  /** What `**` is for: the prefix itself and everything below it. */
  ghost predicate IsWithin(prefix: string, path: string) {
    path == prefix || exists below: string :: path == prefix + "/" + below
  }

  lemma IsWithinIff(prefix: string, path: string)
    ensures IsWithin(prefix, path) <==> StartsWith(path, prefix) && (|path| == |prefix| || path[|prefix|] == '/')
  {
    if path != prefix && IsWithin(prefix, path) {
      var below: string :| path == prefix + "/" + below;
      assert path[..|prefix|] == prefix && path[|prefix|] == '/';
    }
    if StartsWith(path, prefix) {
      if |path| == |prefix| {
        assert path == prefix;
      } else if path[|prefix|] == '/' {
        assert path == prefix + "/" + path[|prefix| + 1..];
      }
    }
  }

  /**
   A double-star pattern never panics, and its answer is the intended one if and only if the
   path does not go on after the prefix with something other than a slash.
   */
  lemma DoubleStarExactly(prefix: string, path: string)
    ensures MatchesGlob(prefix + "/**", path).Answer?
    ensures MatchesGlob(prefix + "/**", path).matched == IsWithin(prefix, path) <==>
              !StartsWith(path, prefix) || |path| == |prefix| || path[|prefix|] == '/'
  {
    var pattern := prefix + "/**";
    assert pattern[|pattern| - 3..] == "/**" && pattern[..|pattern| - 3] == prefix;
    IsWithinIff(prefix, path);
  }

  /** A sibling of `/tmp` counts as lying below it. */
  lemma DoubleStarSurprise()
    ensures MatchesGlob("/tmp" + "/**", "/tmpfoo") == Answer(true) && !IsWithin("/tmp", "/tmpfoo")
  {
    DoubleStarExactly("/tmp", "/tmpfoo");
    IsWithinIff("/tmp", "/tmpfoo");
    assert "/tmpfoo"[..4] == "/tmp" && "/tmpfoo"[4] == 'f';
  }

  /** `is_blacklisted`: the first pattern that matches or panics decides. */
  function IsBlacklisted(patterns: seq<string>, path: string): GlobResult {
    if patterns == [] then Answer(false)
    else
      var r := MatchesGlob(patterns[0], path);
      if r == Answer(false) then IsBlacklisted(patterns[1..], path) else r
  }

  /** The first pattern whose match is not a plain no decides, and the path is free if there is none. */
  lemma {:induction false} BlacklistedIs(patterns: seq<string>, path: string) returns (i: nat)
    ensures i <= |patterns| && forall j :: 0 <= j < i ==> MatchesGlob(patterns[j], path) == Answer(false)
    ensures i < |patterns| ==> Answer(false) != MatchesGlob(patterns[i], path) == IsBlacklisted(patterns, path)
    ensures i == |patterns| ==> IsBlacklisted(patterns, path) == Answer(false)
  {
    if patterns == [] || MatchesGlob(patterns[0], path) != Answer(false) {
      i := 0;
    } else {
      i := BlacklistedIs(patterns[1..], path);
      i := i + 1;
      assert forall j :: 0 < j < |patterns| ==> patterns[j] == patterns[1..][j - 1];
    }
  }

  /** A pattern without a star at its end stands for itself. */
  lemma PlainPattern(pattern: string, path: string)
    requires |pattern| == 0 || pattern[|pattern| - 1] != '*'
    ensures MatchesGlob(pattern, path) == Answer(pattern == path)
  {
    assert "/**"[2] == '*' && "/*"[1] == '*';
    assert |pattern| >= 3 ==> pattern[|pattern| - 3..][2] == pattern[|pattern| - 1];
    assert |pattern| >= 2 ==> pattern[|pattern| - 2..][1] == pattern[|pattern| - 1];
  }

  /** The dimension an event adds drift to, if any. An event that panics adds none. */
  function Counted(patterns: seq<string>, e: ObserverEvent): Option<Dimension> {
    if IsBlacklisted(patterns, e.path) == Answer(false) then DimensionOf(e.category) else None
  }

  function Process(v: Vector, patterns: seq<string>, e: ObserverEvent): Vector {
    match Counted(patterns, e)
    case Some(d) => v.Bump(d)
    case None => v
  }

  /** Which field an event adds one to, told by its category alone. */
  lemma CategoryCounts(v: Vector, patterns: seq<string>, e: ObserverEvent)
    ensures var v', n := Process(v, patterns, e), if IsBlacklisted(patterns, e.path) == Answer(false) then 1.0 else 0.0;
            && v'.mounts == v.mounts + (if e.category == "mount" then n else 0.0)
            && v'.files == v.files + (if e.category == "file" then n else 0.0)
            && v'.network == v.network + (if e.category == "network" then n else 0.0)
            && v'.services == v.services + (if e.category == "service" then n else 0.0)
            && v'.kernel == v.kernel + (if e.category == "kernel" then n else 0.0)
            && v'.packages == v.packages + (if e.category == "package" then n else 0.0)
            && v'.gpu == v.gpu + (if e.category == "gpu" then n else 0.0)
  {
    assert "mount"[0] == 'm' && "file"[0] == 'f' && "network"[0] == 'n' && "service"[0] == 's';
    assert "kernel"[0] == 'k' && "package"[0] == 'p' && "gpu"[0] == 'g';
  }

  /** The drift accumulated from `v` by a list of events. */
  function ProcessAll(v: Vector, patterns: seq<string>, events: seq<ObserverEvent>): Vector {
    if events == [] then v
    else Process(ProcessAll(v, patterns, events[..|events| - 1]), patterns, events[|events| - 1])
  }

  class DriftEvaluator {
    var patterns: seq<string>
    var weights: Vector
    var currentDrift: Vector

    constructor (patterns: seq<string>, weights: Vector)
      ensures this.patterns == patterns && this.weights == weights
      ensures currentDrift == Vector(0.0, 0.0, 0.0, 0.0, 0.0, 0.0, 0.0)
    {
      this.patterns := patterns;
      this.weights := weights;
      currentDrift := NO_DRIFT;
    }

    method Blacklisted(path: string) returns (r: GlobResult)
      ensures r == IsBlacklisted(patterns, path)
    {
      var i := 0;
      while i < |patterns|
        invariant 0 <= i <= |patterns|
        invariant IsBlacklisted(patterns, path) == IsBlacklisted(patterns[i..], path)
      {
        var m := MatchesGlob(patterns[i], path);
        if m != Answer(false) {
          return m;
        }
        assert patterns[i..][1..] == patterns[i + 1..];
        i := i + 1;
      }
      r := Answer(false);
    }

    /** `panicked` stands for a call that does not return. */
    method ProcessEvent(event: ObserverEvent) returns (panicked: bool)
      modifies this`currentDrift
      ensures panicked <==> IsBlacklisted(patterns, event.path).Panic?
      ensures currentDrift == Process(old(currentDrift), patterns, event)
    {
      var b := Blacklisted(event.path);
      if b.Panic? {
        return true;
      }
      if b.matched {
        return false;
      }
      match event.category {
        case "mount" => currentDrift := currentDrift.(mounts := currentDrift.mounts + 1.0);
        case "file" => currentDrift := currentDrift.(files := currentDrift.files + 1.0);
        case "network" => currentDrift := currentDrift.(network := currentDrift.network + 1.0);
        case "service" => currentDrift := currentDrift.(services := currentDrift.services + 1.0);
        case "kernel" => currentDrift := currentDrift.(kernel := currentDrift.kernel + 1.0);
        case "package" => currentDrift := currentDrift.(packages := currentDrift.packages + 1.0);
        case "gpu" => currentDrift := currentDrift.(gpu := currentDrift.gpu + 1.0);
        case _ =>
      }
      panicked := false;
    }

    method Reset()
      modifies this`currentDrift
      ensures currentDrift == Vector(0.0, 0.0, 0.0, 0.0, 0.0, 0.0, 0.0)
    {
      currentDrift := NO_DRIFT;
    }
  }

  // ---- Drift is a count, whatever the order of events ----

  type Classifier = ObserverEvent -> Option<Dimension>

  function CountIn(kind: Classifier, events: seq<ObserverEvent>, d: Dimension): nat {
    if events == [] then 0
    else
      CountIn(kind, events[..|events| - 1], d)
      + (if kind(events[|events| - 1]) == Some(d) then 1 else 0)
  }

  /** What the evaluator makes of an event, for a given blacklist. */
  function Kind(patterns: seq<string>): Classifier {
    (e: ObserverEvent) => Counted(patterns, e)
  }

  lemma {:induction false} DriftIsACount(v: Vector, patterns: seq<string>, events: seq<ObserverEvent>, d: Dimension)
    ensures ProcessAll(v, patterns, events).At(d) == v.At(d) + CountIn(Kind(patterns), events, d) as real
  {
    if events != [] {
      DriftIsACount(v, patterns, events[..|events| - 1], d);
    }
  }

  lemma {:induction false} CountAppend(kind: Classifier, a: seq<ObserverEvent>, b: seq<ObserverEvent>, d: Dimension)
    ensures CountIn(kind, a + b, d) == CountIn(kind, a, d) + CountIn(kind, b, d)
    decreases |b|
  {
    if b == [] {
      assert a + b == a;
    } else {
      var n := |b| - 1;
      assert (a + b)[..|a + b| - 1] == a + b[..n];
      CountAppend(kind, a, b[..n], d);
    }
  }

  /** The events that count at all. */
  function Relevant(kind: Classifier, events: seq<ObserverEvent>): seq<ObserverEvent> {
    if events == [] then []
    else
      var n := |events| - 1;
      if kind(events[n]).Some? then Relevant(kind, events[..n]) + [events[n]]
      else Relevant(kind, events[..n])
  }

  lemma CountOneMore(kind: Classifier, events: seq<ObserverEvent>, e: ObserverEvent, d: Dimension)
    ensures CountIn(kind, events + [e], d) == CountIn(kind, events, d) + if kind(e) == Some(d) then 1 else 0
  {
    assert (events + [e])[..|events|] == events;
  }

  lemma {:induction false} RelevantCounts(kind: Classifier, events: seq<ObserverEvent>, d: Dimension)
    ensures CountIn(kind, events, d) == CountIn(kind, Relevant(kind, events), d)
  {
    if events != [] {
      var front, e := events[..|events| - 1], events[|events| - 1];
      assert events == front + [e];
      RelevantCounts(kind, front, d);
      CountOneMore(kind, front, e, d);
      CountOneMore(kind, Relevant(kind, front), e, d);
    }
  }

  function Without(b: seq<ObserverEvent>, k: nat): seq<ObserverEvent>
    requires k < |b|
  {
    b[..k] + b[k + 1..]
  }

  lemma TakeOut(kind: Classifier, b: seq<ObserverEvent>, k: nat, d: Dimension)
    requires k < |b|
    ensures multiset(b) == multiset(Without(b, k)) + multiset{b[k]}
    ensures CountIn(kind, b, d) == CountIn(kind, Without(b, k), d) + CountIn(kind, [b[k]], d)
  {
    assert b == b[..k] + ([b[k]] + b[k + 1..]);
    CountAppend(kind, b[..k], [b[k]] + b[k + 1..], d);
    CountAppend(kind, [b[k]], b[k + 1..], d);
    CountAppend(kind, b[..k], b[k + 1..], d);
  }

  lemma CancelOne(a: multiset<ObserverEvent>, b: multiset<ObserverEvent>, x: ObserverEvent)
    requires a + multiset{x} == b + multiset{x}
    ensures a == b
  {
    assert a == a + multiset{x} - multiset{x} && b == b + multiset{x} - multiset{x};
  }

  /** Reordering events changes no count. */
  lemma {:induction false} CountPermutes(kind: Classifier, a: seq<ObserverEvent>, b: seq<ObserverEvent>, d: Dimension)
    requires multiset(a) == multiset(b)
    ensures CountIn(kind, a, d) == CountIn(kind, b, d)
    decreases |a|
  {
    if a == [] {
      assert |multiset(b)| == 0;
    } else {
      assert a[0] in multiset(b);
      var k :| 0 <= k < |b| && b[k] == a[0];
      var a', b' := Without(a, 0), Without(b, k);
      TakeOut(kind, a, 0, d);
      TakeOut(kind, b, k, d);
      CancelOne(multiset(a'), multiset(b'), a[0]);
      CountPermutes(kind, a', b', d);
    }
  }

  lemma SameAtSameVector(v: Vector, w: Vector)
    requires forall d :: v.At(d) == w.At(d)
    ensures v == w
  {
    assert v.At(Mounts) == w.At(Mounts) && v.At(Files) == w.At(Files) && v.At(Network) == w.At(Network);
    assert v.At(Services) == w.At(Services) && v.At(Kernel) == w.At(Kernel);
    assert v.At(Packages) == w.At(Packages) && v.At(Gpu) == w.At(Gpu);
  }

  /** The drift depends only on which events count, not on their order or on the others. */
  lemma DriftDependsOnMultiset(v: Vector, patterns: seq<string>, a: seq<ObserverEvent>, b: seq<ObserverEvent>)
    requires multiset(Relevant(Kind(patterns), a)) == multiset(Relevant(Kind(patterns), b))
    ensures ProcessAll(v, patterns, a) == ProcessAll(v, patterns, b)
  {
    forall d ensures ProcessAll(v, patterns, a).At(d) == ProcessAll(v, patterns, b).At(d) {
      DriftIsACount(v, patterns, a, d);
      DriftIsACount(v, patterns, b, d);
      SameCounts(Kind(patterns), a, b, d);
    }
    SameAtSameVector(ProcessAll(v, patterns, a), ProcessAll(v, patterns, b));
  }

  lemma SameCounts(kind: Classifier, a: seq<ObserverEvent>, b: seq<ObserverEvent>, d: Dimension)
    requires multiset(Relevant(kind, a)) == multiset(Relevant(kind, b))
    ensures CountIn(kind, a, d) == CountIn(kind, b, d)
  {
    RelevantCounts(kind, a, d);
    RelevantCounts(kind, b, d);
    CountPermutes(kind, Relevant(kind, a), Relevant(kind, b), d);
  }

  // ---- Magnitude ----

  function WeightedSquare(weight: real, x: real): real {
    weight * x * x
  }

  function MagnitudeSquared(v: Vector, w: Vector): real {
    WeightedSquare(w.mounts, v.mounts) + WeightedSquare(w.files, v.files) + WeightedSquare(w.network, v.network)
    + WeightedSquare(w.services, v.services) + WeightedSquare(w.kernel, v.kernel)
    + WeightedSquare(w.packages, v.packages) + WeightedSquare(w.gpu, v.gpu)
  }

  /** Each dimension is squared and counted with its own weight. */
  lemma MagnitudeSquaredIs(v: Vector, w: Vector)
    ensures MagnitudeSquared(v, w)
         == w.mounts * v.mounts * v.mounts + w.files * v.files * v.files + w.network * v.network * v.network
            + w.services * v.services * v.services + w.kernel * v.kernel * v.kernel
            + w.packages * v.packages * v.packages + w.gpu * v.gpu * v.gpu
  {
  }

  /** `m` is the weighted norm of `v`. */
  ghost predicate IsMagnitude(m: real, v: Vector, w: Vector) {
    m >= 0.0 && m * m == MagnitudeSquared(v, w)
  }

  ghost predicate NonNegative(w: Vector) {
    forall d: Dimension :: w.At(d) >= 0.0
  }

  ghost predicate AtMost(v: Vector, w: Vector) {
    forall d: Dimension :: v.At(d) <= w.At(d)
  }

  lemma WeightedSquareMonotone(weight: real, x: real, y: real)
    requires weight >= 0.0 && 0.0 <= x <= y
    ensures 0.0 <= WeightedSquare(weight, x) <= WeightedSquare(weight, y)
  {
    assert x * x <= x * y <= y * y;
    ScaleMonotone(weight, x * x, y * y);
  }

  lemma ScaleMonotone(weight: real, a: real, b: real)
    requires weight >= 0.0 && 0.0 <= a <= b
    ensures 0.0 <= weight * a <= weight * b
  {
  }

  lemma PositiveProduct(a: real, b: real)
    requires a > 0.0 && b > 0.0
    ensures a * b > 0.0
  {
  }

  lemma SquareOrder(a: real, b: real)
    requires a >= 0.0 && b >= 0.0 && a * a <= b * b
    ensures a <= b
  {
    assert (a - b) * (a + b) == a * a - b * b;
    if a > b {
      PositiveProduct(a - b, a + b);
    }
  }

  lemma SquaresGrow(v: Vector, v': Vector, w: Vector)
    requires NonNegative(w) && NonNegative(v) && AtMost(v, v')
    ensures MagnitudeSquared(v, w) <= MagnitudeSquared(v', w)
  {
    forall d: Dimension
      ensures 0.0 <= WeightedSquare(w.At(d), v.At(d)) <= WeightedSquare(w.At(d), v'.At(d))
    {
      WeightedSquareMonotone(w.At(d), v.At(d), v'.At(d));
    }
    assert WeightedSquare(w.At(Mounts), v.At(Mounts)) <= WeightedSquare(w.At(Mounts), v'.At(Mounts));
    assert WeightedSquare(w.At(Files), v.At(Files)) <= WeightedSquare(w.At(Files), v'.At(Files));
    assert WeightedSquare(w.At(Network), v.At(Network)) <= WeightedSquare(w.At(Network), v'.At(Network));
    assert WeightedSquare(w.At(Services), v.At(Services)) <= WeightedSquare(w.At(Services), v'.At(Services));
    assert WeightedSquare(w.At(Kernel), v.At(Kernel)) <= WeightedSquare(w.At(Kernel), v'.At(Kernel));
    assert WeightedSquare(w.At(Packages), v.At(Packages)) <= WeightedSquare(w.At(Packages), v'.At(Packages));
    assert WeightedSquare(w.At(Gpu), v.At(Gpu)) <= WeightedSquare(w.At(Gpu), v'.At(Gpu));
  }

  /** More drift in every dimension is a larger magnitude. */
  lemma MagnitudeMonotone(v: Vector, v': Vector, w: Vector, m: real, m': real)
    requires NonNegative(w) && NonNegative(v) && AtMost(v, v')
    requires IsMagnitude(m, v, w) && IsMagnitude(m', v', w)
    ensures m <= m'
  {
    SquaresGrow(v, v', w);
    SquareOrder(m, m');
  }

  // ---- The window ----

  const U32_MAX: nat := 0xFFFF_FFFF

  /**
   `calculate_window_seconds`: the division saturates to infinity at a zero denominator, is
   clamped below at 60, and the cast to `u32` truncates and saturates. (0 / 0 is NaN, which
   the clamp turns into 60.)
   */
  function WindowSeconds(base: nat, sensitivity: real, magnitude: real): nat {
    var denominator := magnitude * sensitivity + 1.0;
    if denominator == 0.0 then (if base == 0 then 60 else U32_MAX)
    else
      var window := base as real / denominator;
      if window < 60.0 then 60
      else if window.Floor > U32_MAX then U32_MAX
      else window.Floor
  }

  lemma DivisionAntitone(a: real, b: real, c: real)
    requires a >= 0.0 && 0.0 < b <= c
    ensures 0.0 <= a / c <= a / b
  {
    assert (a / b) * b == a && (a / c) * c == a;
    ProductGrows(a / b, a / c, b, c);
  }

  lemma ProductGrows(x: real, y: real, b: real, c: real)
    requires 0.0 <= x && 0.0 < b <= c
    ensures x < y ==> x * b < y * c
  {
    if x < y {
      assert x * b <= x * c < y * c;
    }
  }

  lemma ProductMonotone(s: real, m: real, m': real)
    requires s >= 0.0 && 0.0 <= m <= m'
    ensures 0.0 <= m * s <= m' * s
  {
  }

  /**
   `w` is the base window divided by one plus the weighted drift, in whole seconds, but at least
   60 and at most 2^32 - 1; with a denominator of zero the largest window, and with a negative
   one the smallest.
   */
  ghost predicate IsWindow(w: nat, base: nat, sensitivity: real, m: real) {
    var q := 1.0 + m * sensitivity;
    if q < 0.0 then w == 60
    else if q == 0.0 then w == if base == 0 then 60 else 4294967295
    else || (w == 60 && base as real < 61.0 * q)
         || (60 < w < 4294967295 && w as real * q <= base as real < (w + 1) as real * q)
         || (w == 4294967295 && 4294967295.0 * q <= base as real)
  }

  lemma QuotientBound(base: real, q: real, n: real)
    requires q > 0.0
    ensures n * q <= base <==> n <= base / q
  {
    var x := base / q;
    assert x * q == base;
    if n <= x {
      ScaleOrder(q, n, x);
    } else {
      ScaleOrder(q, x, n);
    }
  }

  lemma ScaleOrder(q: real, a: real, b: real)
    requires q > 0.0
    ensures a <= b ==> a * q <= b * q
    ensures a < b ==> a * q < b * q
  {
  }

  /** A3, exactly: the window for all inputs. */
  lemma WindowExactly(base: nat, sensitivity: real, m: real, w: nat)
    ensures w == WindowSeconds(base, sensitivity, m) <==> IsWindow(w, base, sensitivity, m)
  {
    var q := m * sensitivity + 1.0;
    if q > 0.0 {
      QuotientBound(base as real, q, 60.0);
      QuotientBound(base as real, q, 61.0);
      QuotientBound(base as real, q, 4294967295.0);
      QuotientBound(base as real, q, w as real);
      QuotientBound(base as real, q, (w + 1) as real);
    } else if q < 0.0 {
      NegativeQuotient(base as real, q);
    }
  }

  lemma NegativeQuotient(base: real, q: real)
    requires base >= 0.0 && q < 0.0
    ensures base / q <= 0.0
  {
    var x := base / q;
    assert x * q == base;
    if x > 0.0 {
      PositiveProduct(x, -q);
    }
  }

  /**
   A3: with non-negative sensitivity the window lies between a minute and the base window, and
   above a minute it is the base window divided by one plus the weighted drift.
   */
  lemma WindowBounds(base: nat, sensitivity: real, m: real)
    requires sensitivity >= 0.0 && m >= 0.0
    ensures 60 <= WindowSeconds(base, sensitivity, m) <= if base > 60 then base else 60
    ensures base <= 4294967295 ==>
              var w, q := WindowSeconds(base, sensitivity, m), 1.0 + m * sensitivity;
              && (w > 60 ==> w as real * q <= base as real < (w + 1) as real * q)
              && (w == 60 ==> base as real < 61.0 * q)
  {
    WindowExactly(base, sensitivity, m, WindowSeconds(base, sensitivity, m));
    MaximumWindow(base, 1.0 + m * sensitivity);
    ProductMonotone(sensitivity, 0.0, m);
    DivisionAntitone(base as real, 1.0, m * sensitivity + 1.0);
  }

  lemma MaximumWindow(base: nat, q: real)
    ensures base <= 4294967295 && q >= 1.0 ==> base as real < 4294967296.0 * q
  {
  }

  lemma WindowAntitone(base: nat, sensitivity: real, m: real, m': real)
    requires sensitivity >= 0.0 && 0.0 <= m <= m'
    ensures WindowSeconds(base, sensitivity, m') <= WindowSeconds(base, sensitivity, m)
  {
    ProductMonotone(sensitivity, m, m');
    DivisionAntitone(base as real, m * sensitivity + 1.0, m' * sensitivity + 1.0);
    assert base as real / (m' * sensitivity + 1.0) <= base as real / (m * sensitivity + 1.0);
  }

  ghost predicate NeverLengthens(base: nat, sensitivity: real) {
    forall m: real, m': real :: 0.0 <= m <= m' ==>
      WindowSeconds(base, sensitivity, m') <= WindowSeconds(base, sensitivity, m)
  }

  lemma WindowAtZero(base: nat, sensitivity: real)
    requires base <= U32_MAX
    ensures WindowSeconds(base, sensitivity, 0.0) == if base > 60 then base else 60
  {
    assert 0.0 * sensitivity + 1.0 == 1.0;
    assert base as real / 1.0 == base as real;
  }

  /** The largest base window saturates up to the pole and falls to a minute behind it. */
  lemma SaturatedWindow(sensitivity: real, m: real)
    requires sensitivity < 0.0 && m >= 0.0
    ensures WindowSeconds(U32_MAX, sensitivity, m) == if m * sensitivity + 1.0 >= 0.0 then U32_MAX else 60
  {
    var d := m * sensitivity + 1.0;
    assert d <= 1.0;
    if d > 0.0 {
      DivisionAntitone(U32_MAX as real, d, 1.0);
    } else if d < 0.0 {
      assert U32_MAX as real / d < 0.0;
    }
  }

  lemma SaturatedNeverLengthens(sensitivity: real, m: real, m': real)
    requires sensitivity < 0.0 && 0.0 <= m <= m'
    ensures WindowSeconds(U32_MAX, sensitivity, m') <= WindowSeconds(U32_MAX, sensitivity, m)
  {
    SaturatedWindow(sensitivity, m);
    SaturatedWindow(sensitivity, m');
    ProductMonotone(-sensitivity, m, m');
  }

  lemma EmptyWindow(sensitivity: real, m: real)
    ensures WindowSeconds(0, sensitivity, m) == 60
  {
    var d := m * sensitivity + 1.0;
    if d != 0.0 {
      assert 0.0 / d == 0.0;
    }
  }

  /** With negative sensitivity the window grows without bound up to some magnitude. */
  lemma Lengthens(base: nat, sensitivity: real)
    requires sensitivity < 0.0 && 0 < base < U32_MAX
    ensures !NeverLengthens(base, sensitivity)
  {
    var pole := -1.0 / sensitivity;
    assert pole * sensitivity == -1.0 && pole >= 0.0;
    WindowAtZero(base, sensitivity);
    assert WindowSeconds(base, sensitivity, pole) == U32_MAX > WindowSeconds(base, sensitivity, 0.0);
  }

  /**
   More drift never lengthens the window if and only if the sensitivity is not negative,
   or the base window is one of the two extreme values a `u32` can take.
   */
  lemma NeverLengthensIff(base: nat, sensitivity: real)
    requires base <= U32_MAX
    ensures NeverLengthens(base, sensitivity) <==> sensitivity >= 0.0 || base == 0 || base == U32_MAX
  {
    if sensitivity < 0.0 && 0 < base < U32_MAX {
      Lengthens(base, sensitivity);
    } else {
      forall m: real, m': real | 0.0 <= m <= m'
        ensures WindowSeconds(base, sensitivity, m') <= WindowSeconds(base, sensitivity, m)
      {
        if sensitivity >= 0.0 {
          WindowAntitone(base, sensitivity, m, m');
        } else if base == 0 {
          EmptyWindow(sensitivity, m);
          EmptyWindow(sensitivity, m');
        } else {
          SaturatedNeverLengthens(sensitivity, m, m');
        }
      }
    }
  }

  lemma {:induction false} DriftGrows(patterns: seq<string>, a: seq<ObserverEvent>, b: seq<ObserverEvent>)
    ensures NonNegative(ProcessAll(NO_DRIFT, patterns, a))
    ensures AtMost(ProcessAll(NO_DRIFT, patterns, a), ProcessAll(NO_DRIFT, patterns, a + b))
  {
    forall d: Dimension
      ensures 0.0 <= ProcessAll(NO_DRIFT, patterns, a).At(d) <= ProcessAll(NO_DRIFT, patterns, a + b).At(d)
    {
      DriftIsACount(NO_DRIFT, patterns, a, d);
      DriftIsACount(NO_DRIFT, patterns, a + b, d);
      CountAppend(Kind(patterns), a, b, d);
    }
  }

  /**
   More drift never buys more time: appending events to any event list never lengthens the
   window computed from the accumulated drift.
   */
  lemma MoreDriftNoMoreTime(patterns: seq<string>, weights: Vector, base: nat, sensitivity: real,
                            a: seq<ObserverEvent>, b: seq<ObserverEvent>, m: real, m': real)
    requires NonNegative(weights) && sensitivity >= 0.0
    requires IsMagnitude(m, ProcessAll(NO_DRIFT, patterns, a), weights)
    requires IsMagnitude(m', ProcessAll(NO_DRIFT, patterns, a + b), weights)
    ensures WindowSeconds(base, sensitivity, m') <= WindowSeconds(base, sensitivity, m)
  {
    DriftGrows(patterns, a, b);
    MagnitudeMonotone(ProcessAll(NO_DRIFT, patterns, a), ProcessAll(NO_DRIFT, patterns, a + b), weights, m, m');
    WindowAntitone(base, sensitivity, m, m');
  }
}
