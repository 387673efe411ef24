/** The journal's conversions between domain entries and their protobuf form. */
module EntryCodec {
  import opened ConfigTypes
  import opened Text
  import MountValue

  type MountSpec = MountValue.MountSpec

  datatype MountDelta = MountDelta(path: string, action: int, declared: Option<MountSpec>, actual: Option<MountSpec>)
  datatype FileDelta = FileDelta(path: string, action: int, contentHash: Option<string>, mode: Option<nat>, owner: Option<string>)
  datatype NetworkDelta = NetworkDelta(interface: string, action: int, detail: Option<string>)
  datatype ServiceDelta = ServiceDelta(name: string, action: int, declaredState: Option<string>, actualState: Option<string>)
  datatype KernelDelta = KernelDelta(key: string, action: int, declaredValue: Option<string>, actualValue: Option<string>)
  datatype PackageDelta = PackageDelta(name: string, action: int, version: Option<string>)
  datatype GpuDelta = GpuDelta(gpuIndex: nat, action: int, detail: Option<string>)

  datatype ProtoDelta = ProtoDelta(
    mounts: seq<MountDelta>,
    files: seq<FileDelta>,
    network: seq<NetworkDelta>,
    services: seq<ServiceDelta>,
    kernel: seq<KernelDelta>,
    packages: seq<PackageDelta>,
    gpu: seq<GpuDelta>)

  function MapSeq<A, B>(f: A -> B, s: seq<A>): (r: seq<B>)
    ensures |r| == |s| && forall i :: 0 <= i < |s| ==> r[i] == f(s[i])
  {
    seq(|s|, i requires 0 <= i < |s| => f(s[i]))
  }

  /** Unspecified and unknown actions count as modifications. */
  function ProtoAction(a: int): DeltaAction {
    if a == 1 then Add else if a == 2 then Remove else Modify
  }

  function DomainAction(a: DeltaAction): int {
    match a
    case Add => 1
    case Remove => 2
    case Modify => 3
  }

  function RenderMount(spec: Option<MountSpec>): Option<string> {
    match spec
    case Some(m) => Some(MountValue.Format(m))
    case None => None
  }

  function MountFromProto(m: MountDelta): DeltaItem {
    DeltaItem(ProtoAction(m.action), m.path, RenderMount(m.declared), RenderMount(m.actual))
  }

  function FileFromProto(f: FileDelta): DeltaItem {
    DeltaItem(ProtoAction(f.action), f.path, f.contentHash, f.owner)
  }

  function NetworkFromProto(n: NetworkDelta): DeltaItem {
    DeltaItem(ProtoAction(n.action), n.interface, n.detail, None)
  }

  function ServiceFromProto(s: ServiceDelta): DeltaItem {
    DeltaItem(ProtoAction(s.action), s.name, s.declaredState, s.actualState)
  }

  function KernelFromProto(k: KernelDelta): DeltaItem {
    DeltaItem(ProtoAction(k.action), k.key, k.declaredValue, k.actualValue)
  }

  function PackageFromProto(p: PackageDelta): DeltaItem {
    DeltaItem(ProtoAction(p.action), p.name, p.version, None)
  }

  function GpuFromProto(g: GpuDelta): DeltaItem {
    DeltaItem(ProtoAction(g.action), PrintNat(g.gpuIndex), g.detail, None)
  }

  /** `proto_to_state_delta`. */
  function DeltaFromProto(p: ProtoDelta): StateDelta {
    StateDelta(MapSeq(MountFromProto, p.mounts), MapSeq(FileFromProto, p.files), MapSeq(NetworkFromProto, p.network),
               MapSeq(ServiceFromProto, p.services), MapSeq(KernelFromProto, p.kernel),
               MapSeq(PackageFromProto, p.packages), MapSeq(GpuFromProto, p.gpu))
  }

  function MountToProto(d: DeltaItem): MountDelta {
    MountDelta(d.key, DomainAction(d.action), None, None)
  }

  function FileToProto(d: DeltaItem): FileDelta {
    FileDelta(d.key, DomainAction(d.action), d.value, None, d.previous)
  }

  function NetworkToProto(d: DeltaItem): NetworkDelta {
    NetworkDelta(d.key, DomainAction(d.action), d.value)
  }

  function ServiceToProto(d: DeltaItem): ServiceDelta {
    ServiceDelta(d.key, DomainAction(d.action), d.value, d.previous)
  }

  function KernelToProto(d: DeltaItem): KernelDelta {
    KernelDelta(d.key, DomainAction(d.action), d.value, d.previous)
  }

  function PackageToProto(d: DeltaItem): PackageDelta {
    PackageDelta(d.key, DomainAction(d.action), d.value)
  }

  /** A key that is not a 32-bit number becomes index 0. */
  function GpuIndex(key: string): nat {
    match ParseU32(key)
    case Some(n) => n
    case None => 0
  }

  function GpuToProto(d: DeltaItem): GpuDelta {
    GpuDelta(GpuIndex(d.key), DomainAction(d.action), d.value)
  }

  /** `state_delta_to_proto`. */
  function DeltaToProto(d: StateDelta): ProtoDelta {
    ProtoDelta(MapSeq(MountToProto, d.mounts), MapSeq(FileToProto, d.files), MapSeq(NetworkToProto, d.network),
               MapSeq(ServiceToProto, d.services), MapSeq(KernelToProto, d.kernel),
               MapSeq(PackageToProto, d.packages), MapSeq(GpuToProto, d.gpu))
  }

  // ---- What a delta loses on the way ----

  /** Mounts keep action and path only. */
  function BareMount(d: DeltaItem): DeltaItem {
    d.(value := None, previous := None)
  }

  function WithoutPrevious(d: DeltaItem): DeltaItem {
    d.(previous := None)
  }

  /** GPU keys come back as canonical decimal numbers. */
  function CanonicalGpu(d: DeltaItem): DeltaItem {
    d.(key := PrintNat(GpuIndex(d.key)), previous := None)
  }

  function Normalise(d: StateDelta): StateDelta {
    d.(mounts := MapSeq(BareMount, d.mounts),
       network := MapSeq(WithoutPrevious, d.network),
       packages := MapSeq(WithoutPrevious, d.packages),
       gpu := MapSeq(CanonicalGpu, d.gpu))
  }

  /** The wire codes of the actions; any other code reads as a modification. */
  lemma ActionCodes(code: int)
    ensures DomainAction(Add) == 1 && DomainAction(Remove) == 2 && DomainAction(Modify) == 3
    ensures ProtoAction(1) == Add && ProtoAction(2) == Remove && (code !in {1, 2} ==> ProtoAction(code) == Modify)
  {
  }

  /** Which field of an item goes where, category by category, in the same order. */
  lemma DeltaOnTheWire(d: StateDelta)
    ensures var p := DeltaToProto(d);
            && |p.mounts| == |d.mounts| && |p.files| == |d.files| && |p.network| == |d.network|
            && |p.services| == |d.services| && |p.kernel| == |d.kernel| && |p.packages| == |d.packages| && |p.gpu| == |d.gpu|
            && (forall i :: 0 <= i < |d.mounts| ==> var x := d.mounts[i];
                  p.mounts[i] == MountDelta(path := x.key, action := DomainAction(x.action), declared := None, actual := None))
            && (forall i :: 0 <= i < |d.files| ==> var x := d.files[i];
                  p.files[i] == FileDelta(path := x.key, action := DomainAction(x.action), contentHash := x.value,
                                          mode := None, owner := x.previous))
            && (forall i :: 0 <= i < |d.network| ==> var x := d.network[i];
                  p.network[i] == NetworkDelta(interface := x.key, action := DomainAction(x.action), detail := x.value))
            && (forall i :: 0 <= i < |d.services| ==> var x := d.services[i];
                  p.services[i] == ServiceDelta(name := x.key, action := DomainAction(x.action),
                                                declaredState := x.value, actualState := x.previous))
            && (forall i :: 0 <= i < |d.kernel| ==> var x := d.kernel[i];
                  p.kernel[i] == KernelDelta(key := x.key, action := DomainAction(x.action),
                                             declaredValue := x.value, actualValue := x.previous))
            && (forall i :: 0 <= i < |d.packages| ==> var x := d.packages[i];
                  p.packages[i] == PackageDelta(name := x.key, action := DomainAction(x.action), version := x.value))
            && (forall i :: 0 <= i < |d.gpu| ==> var x := d.gpu[i];
                  && (ParseU32(x.key).Some? ==> p.gpu[i].gpuIndex == ParseU32(x.key).value)
                  && (ParseU32(x.key).None? ==> p.gpu[i].gpuIndex == 0)
                  && p.gpu[i].action == DomainAction(x.action) && p.gpu[i].detail == x.value)
  {
  }

  /** Which field of an item is read from where. Mount specs are read as text. */
  lemma DeltaOffTheWire(p: ProtoDelta)
    ensures var d := DeltaFromProto(p);
            && |p.mounts| == |d.mounts| && |p.files| == |d.files| && |p.network| == |d.network|
            && |p.services| == |d.services| && |p.kernel| == |d.kernel| && |p.packages| == |d.packages| && |p.gpu| == |d.gpu|
            && (forall i :: 0 <= i < |p.mounts| ==> var m := p.mounts[i];
                  && d.mounts[i].action == ProtoAction(m.action) && d.mounts[i].key == m.path
                  && IsSpecText(d.mounts[i].value, m.declared) && IsSpecText(d.mounts[i].previous, m.actual))
            && (forall i :: 0 <= i < |p.files| ==> var f := p.files[i];
                  d.files[i] == DeltaItem(action := ProtoAction(f.action), key := f.path, value := f.contentHash, previous := f.owner))
            && (forall i :: 0 <= i < |p.network| ==> var n := p.network[i];
                  d.network[i] == DeltaItem(action := ProtoAction(n.action), key := n.interface, value := n.detail, previous := None))
            && (forall i :: 0 <= i < |p.services| ==> var s := p.services[i];
                  d.services[i] == DeltaItem(action := ProtoAction(s.action), key := s.name,
                                             value := s.declaredState, previous := s.actualState))
            && (forall i :: 0 <= i < |p.kernel| ==> var k := p.kernel[i];
                  d.kernel[i] == DeltaItem(action := ProtoAction(k.action), key := k.key,
                                           value := k.declaredValue, previous := k.actualValue))
            && (forall i :: 0 <= i < |p.packages| ==> var q := p.packages[i];
                  d.packages[i] == DeltaItem(action := ProtoAction(q.action), key := q.name, value := q.version, previous := None))
            && (forall i :: 0 <= i < |p.gpu| ==> var g := p.gpu[i];
                  d.gpu[i] == DeltaItem(action := ProtoAction(g.action), key := PrintNat(g.gpuIndex),
                                        value := g.detail, previous := None))
  {
  }

  predicate IsSpecText(text: Option<string>, spec: Option<MountSpec>) {
    match spec
    case Some(m) => text == Some(m.fsType + ":" + m.source + " (" + m.options + ")")
    case None => text == None
  }

  lemma ActionRoundTrip(a: DeltaAction)
    ensures ProtoAction(DomainAction(a)) == a
  {
  }

  /**
   To protobuf and back: the items of all seven categories come back in order and with
   their actions; files, services and kernel settings come back whole; the other
   categories come back normalised.
   */
  lemma DeltaRoundTrip(d: StateDelta)
    ensures DeltaFromProto(DeltaToProto(d)) == Normalise(d)
  {
    forall x: DeltaItem ensures ProtoAction(DomainAction(x.action)) == x.action {
      ActionRoundTrip(x.action);
    }
    var r := DeltaFromProto(DeltaToProto(d));
    assert r.mounts == Normalise(d).mounts && r.files == d.files && r.network == Normalise(d).network;
    assert r.services == d.services && r.kernel == d.kernel;
    assert r.packages == Normalise(d).packages && r.gpu == Normalise(d).gpu;
  }

  lemma GpuIndexIsU32(key: string)
    ensures GpuIndex(key) < U32_LIMIT && GpuIndex(PrintNat(GpuIndex(key))) == GpuIndex(key)
  {
    ParsePrint(GpuIndex(key));
  }

  /** A second trip changes nothing more. */
  lemma NormaliseIdempotent(d: StateDelta)
    ensures Normalise(Normalise(d)) == Normalise(d)
  {
    var n := Normalise(d);
    forall i | 0 <= i < |d.gpu| ensures CanonicalGpu(n.gpu[i]) == n.gpu[i] {
      GpuIndexIsU32(d.gpu[i].key);
    }
    assert Normalise(n).mounts == n.mounts && Normalise(n).network == n.network;
    assert Normalise(n).packages == n.packages && Normalise(n).gpu == n.gpu;
  }

  /** The key is how some 32-bit number is printed. */
  ghost predicate CanonicalIndex(key: string) {
    exists n: nat :: n < U32_LIMIT && key == PrintNat(n)
  }

  /** Nothing in the delta would be lost. */
  ghost predicate Portable(d: StateDelta) {
    && (forall x :: x in d.mounts ==> x.value.None? && x.previous.None?)
    && (forall x :: x in d.network ==> x.previous.None?)
    && (forall x :: x in d.packages ==> x.previous.None?)
    && (forall x :: x in d.gpu ==> x.previous.None? && CanonicalIndex(x.key))
  }

  lemma CanonicalIff(key: string)
    ensures PrintNat(GpuIndex(key)) == key <==> CanonicalIndex(key)
  {
    GpuIndexIsU32(key);
    if CanonicalIndex(key) {
      var n: nat :| n < U32_LIMIT && key == PrintNat(n);
      ParsePrint(n);
    }
  }

  lemma FixedByMap(f: DeltaItem -> DeltaItem, s: seq<DeltaItem>)
    ensures MapSeq(f, s) == s <==> forall x :: x in s ==> f(x) == x
  {
    if MapSeq(f, s) == s {
      forall x | x in s ensures f(x) == x {
        var i :| 0 <= i < |s| && s[i] == x;
        assert MapSeq(f, s)[i] == s[i];
      }
    }
  }

  lemma NormaliseFixes(d: StateDelta)
    ensures Normalise(d) == d <==>
              && MapSeq(BareMount, d.mounts) == d.mounts && MapSeq(WithoutPrevious, d.network) == d.network
              && MapSeq(WithoutPrevious, d.packages) == d.packages && MapSeq(CanonicalGpu, d.gpu) == d.gpu
  {
  }

  /** A delta survives the trip unchanged if and only if it is portable. */
  lemma DeltaSurvivesIff(d: StateDelta)
    ensures DeltaFromProto(DeltaToProto(d)) == d <==> Portable(d)
  {
    DeltaRoundTrip(d);
    NormaliseFixes(d);
    FixedByMap(BareMount, d.mounts);
    FixedByMap(WithoutPrevious, d.network);
    FixedByMap(WithoutPrevious, d.packages);
    FixedByMap(CanonicalGpu, d.gpu);
    forall x: DeltaItem
      ensures BareMount(x) == x <==> x.value.None? && x.previous.None?
      ensures WithoutPrevious(x) == x <==> x.previous.None?
      ensures CanonicalGpu(x) == x <==> x.previous.None? && CanonicalIndex(x.key)
    {
      CanonicalIff(x.key);
    }
  }

  /** Across the two crates: the agent reads a declared mount back exactly when its spec is faithful. */
  lemma DeclaredMountReachesAgent(p: ProtoDelta, i: nat)
    requires i < |p.mounts| && p.mounts[i].declared.Some?
    ensures var item := DeltaFromProto(p).mounts[i];
            && item.value.Some?
            && (MountValue.Parse(item.value.value) == p.mounts[i].declared.value <==>
                  MountValue.Faithful(p.mounts[i].declared.value))
  {
    MountValue.RoundTripIff(p.mounts[i].declared.value);
  }

  // ---- Entries ----

  datatype ProtoScope = NodeId(n: string) | VclusterId(v: string) | GlobalScope(on: bool)
  datatype ProtoIdentity = ProtoIdentity(principal: string, principalType: string, role: string)

  datatype ProtoEntry = ProtoEntry(
    sequence: nat,
    timestamp: Option<int>,
    entryType: int,
    scope: Option<Option<ProtoScope>>,
    author: Option<ProtoIdentity>,
    parent: Option<nat>,
    stateDelta: Option<ProtoDelta>,
    policyRef: string,
    ttlSeconds: Option<int>,
    emergencyReason: Option<string>)

  datatype EntryResult = Accepted(entry: ConfigEntry) | AuthorRequired | UnknownEntryType

  function TypeCode(t: EntryType): int {
    match t
    case Commit => 1
    case Rollback => 2
    case AutoConverge => 3
    case DriftDetected => 4
    case CapabilityChange => 5
    case PolicyUpdate => 6
    case BootConfig => 7
    case EmergencyStart => 8
    case EmergencyEnd => 9
    case ExecLog => 10
    case ShellSession => 11
    case ServiceLifecycle => 12
    case PendingApproval => 13
    case NodeEnrolled => 14
    case NodeActivated => 15
    case NodeDeactivated => 16
    case NodeDecommissioned => 17
    case NodeAssigned => 18
    case NodeUnassigned => 19
    case CertSigned => 20
    case CertRevoked => 21
  }

  /** Only the first thirteen types can be submitted. */
  function TypeFromCode(code: int): Option<EntryType> {
    match code
    case 1 => Some(Commit)
    case 2 => Some(Rollback)
    case 3 => Some(AutoConverge)
    case 4 => Some(DriftDetected)
    case 5 => Some(CapabilityChange)
    case 6 => Some(PolicyUpdate)
    case 7 => Some(BootConfig)
    case 8 => Some(EmergencyStart)
    case 9 => Some(EmergencyEnd)
    case 10 => Some(ExecLog)
    case 11 => Some(ShellSession)
    case 12 => Some(ServiceLifecycle)
    case 13 => Some(PendingApproval)
    case _ => None
  }

  function ScopeFromProto(s: Option<Option<ProtoScope>>): Scope {
    match s
    case Some(Some(NodeId(n))) => Node(n)
    case Some(Some(VclusterId(v))) => VCluster(v)
    case _ => Global
  }

  function ScopeToProto(s: Scope): Option<Option<ProtoScope>> {
    match s
    case Global => Some(Some(GlobalScope(true)))
    case VCluster(v) => Some(Some(VclusterId(v)))
    case Node(n) => Some(Some(NodeId(n)))
  }

  function PrincipalFromProto(s: string): PrincipalType {
    if s == "agent" || s == "Agent" then Agent
    else if s == "service" || s == "Service" then Service
    else Human
  }

  function PrincipalToProto(p: PrincipalType): string {
    match p
    case Human => "Human"
    case Agent => "Agent"
    case Service => "Service"
  }

  function DeltaOptionToProto(d: Option<StateDelta>): Option<ProtoDelta> {
    match d
    case Some(delta) => Some(DeltaToProto(delta))
    case None => None
  }

  function DeltaOptionFromProto(d: Option<ProtoDelta>): Option<StateDelta> {
    match d
    case Some(delta) => Some(DeltaFromProto(delta))
    case None => None
  }

  /** The cast of the 64-bit seconds to `u32` keeps the low 32 bits. */
  function TtlFromProto(seconds: Option<int>): Option<nat> {
    match seconds
    case Some(s) => Some(s % U32_LIMIT)
    case None => None
  }

  function TtlToProto(ttl: Option<nat>): Option<int> {
    match ttl
    case Some(s) => Some(s)
    case None => None
  }

  /** `proto_to_config_entry`; the server's clock replaces the timestamp. */
  function EntryFromProto(p: ProtoEntry, now: int): EntryResult {
    if p.author.None? then AuthorRequired
    else
      match TypeFromCode(p.entryType)
      case None => UnknownEntryType
      case Some(entryType) =>
        var author := p.author.value;
        Accepted(ConfigEntry(
          p.sequence, now, entryType, ScopeFromProto(p.scope),
          Identity(author.principal, PrincipalFromProto(author.principalType), author.role),
          p.parent, DeltaOptionFromProto(p.stateDelta),
          if p.policyRef == "" then None else Some(p.policyRef),
          TtlFromProto(p.ttlSeconds), p.emergencyReason))
  }

  /** `config_entry_to_proto`. */
  function EntryToProto(e: ConfigEntry): ProtoEntry {
    ProtoEntry(
      e.sequence, Some(e.timestamp), TypeCode(e.entryType), ScopeToProto(e.scope),
      Some(ProtoIdentity(e.author.principal, PrincipalToProto(e.author.principalType), e.author.role)),
      e.parent, DeltaOptionToProto(e.stateDelta),
      if e.policyRef.Some? then e.policyRef.value else "",
      TtlToProto(e.ttlSeconds), e.emergencyReason)
  }

  /** The wire codes of the entry types. */
  lemma TypeCodes()
    ensures TypeCode(Commit) == 1 && TypeCode(Rollback) == 2 && TypeCode(AutoConverge) == 3
    ensures TypeCode(DriftDetected) == 4 && TypeCode(CapabilityChange) == 5 && TypeCode(PolicyUpdate) == 6
    ensures TypeCode(BootConfig) == 7 && TypeCode(EmergencyStart) == 8 && TypeCode(EmergencyEnd) == 9
    ensures TypeCode(ExecLog) == 10 && TypeCode(ShellSession) == 11 && TypeCode(ServiceLifecycle) == 12
    ensures TypeCode(PendingApproval) == 13 && TypeCode(NodeEnrolled) == 14 && TypeCode(NodeActivated) == 15
    ensures TypeCode(NodeDeactivated) == 16 && TypeCode(NodeDecommissioned) == 17 && TypeCode(NodeAssigned) == 18
    ensures TypeCode(NodeUnassigned) == 19 && TypeCode(CertSigned) == 20 && TypeCode(CertRevoked) == 21
  {
  }

  /** The first thirteen can be read, each as the type it is written for. */
  lemma ReadableCodes(code: int)
    ensures TypeFromCode(code).Some? <==> 1 <= code <= 13
    ensures TypeFromCode(code).Some? ==> TypeCode(TypeFromCode(code).value) == code
  {
  }

  /** The names of the principal types; reading knows two spellings of two of them, and takes all else for a person. */
  lemma PrincipalNames(name: string)
    ensures PrincipalToProto(Human) == "Human" && PrincipalToProto(Agent) == "Agent" && PrincipalToProto(Service) == "Service"
    ensures PrincipalFromProto(name).Agent? <==> name == "agent" || name == "Agent"
    ensures PrincipalFromProto(name).Service? <==> name == "service" || name == "Service"
  {
    assert "Agent"[0] == 'A' && "Service"[0] == 'S' && "agent"[0] == 'a' && "service"[0] == 's';
  }

  /** A submission is refused for want of an author first, and then for an unknown type; what becomes of an accepted one. */
  lemma SubmissionIs(p: ProtoEntry, now: int)
    ensures var r := EntryFromProto(p, now);
            && (r.AuthorRequired? <==> p.author.None?)
            && (r.UnknownEntryType? <==> p.author.Some? && !(1 <= p.entryType <= 13))
            && (r.Accepted? ==>
                  var e, a := r.entry, p.author.value;
                  && e.sequence == p.sequence && e.timestamp == now && TypeCode(e.entryType) == p.entryType
                  && e.author == Identity(principal := a.principal, principalType := PrincipalFromProto(a.principalType), role := a.role)
                  && (forall n :: e.scope == Node(n) <==> p.scope == Some(Some(NodeId(n))))
                  && (forall v :: e.scope == VCluster(v) <==> p.scope == Some(Some(VclusterId(v))))
                  && e.parent == p.parent && e.emergencyReason == p.emergencyReason
                  && (e.policyRef == if p.policyRef == "" then None else Some(p.policyRef))
                  && (e.stateDelta.Some? <==> p.stateDelta.Some?)
                  && (e.stateDelta.Some? ==> e.stateDelta.value == DeltaFromProto(p.stateDelta.value))
                  && (e.ttlSeconds.Some? <==> p.ttlSeconds.Some?)
                  && (e.ttlSeconds.Some? ==> e.ttlSeconds.value == p.ttlSeconds.value % 4294967296))
  {
    ReadableCodes(p.entryType);
  }

  /** What an entry looks like on the wire. */
  lemma EntryOnTheWire(e: ConfigEntry)
    ensures var p := EntryToProto(e);
            && p.sequence == e.sequence && p.timestamp == Some(e.timestamp) && p.entryType == TypeCode(e.entryType)
            && p.author == Some(ProtoIdentity(principal := e.author.principal,
                                              principalType := PrincipalToProto(e.author.principalType), role := e.author.role))
            && p.scope == Some(Some(match e.scope
                                    case Global => GlobalScope(true)
                                    case VCluster(v) => VclusterId(v)
                                    case Node(n) => NodeId(n)))
            && p.parent == e.parent && p.emergencyReason == e.emergencyReason
            && p.policyRef == (if e.policyRef.Some? then e.policyRef.value else "")
            && (p.stateDelta.Some? <==> e.stateDelta.Some?)
            && (p.stateDelta.Some? ==> p.stateDelta.value == DeltaToProto(e.stateDelta.value))
            && (p.ttlSeconds.Some? <==> e.ttlSeconds.Some?)
            && (p.ttlSeconds.Some? ==> p.ttlSeconds.value == e.ttlSeconds.value)
  {
  }

  lemma TypeRoundTrip(t: EntryType)
    ensures TypeFromCode(TypeCode(t)) == if TypeCode(t) <= 13 then Some(t) else None
  {
  }

  lemma IdentityRoundTrip(p: PrincipalType, s: Scope)
    ensures PrincipalFromProto(PrincipalToProto(p)) == p && ScopeFromProto(ScopeToProto(s)) == s
  {
    assert "Human"[0] == 'H' && "Agent"[0] == 'A' && "Service"[0] == 'S' && "agent"[0] == 'a' && "service"[0] == 's';
  }

  /** Nothing but the timestamp of the entry would change. */
  ghost predicate EntryPortable(e: ConfigEntry) {
    && TypeCode(e.entryType) <= 13
    && e.policyRef != Some("")
    && (e.stateDelta.Some? ==> Portable(e.stateDelta.value))
  }

  /**
   An entry read from the journal and submitted again is accepted exactly if its type is one
   of the thirteen submittable ones, and comes back unchanged but for the timestamp if and
   only if moreover its delta is portable and its policy reference is not the empty string.
   */
  lemma EntrySurvivesIff(e: ConfigEntry, now: int)
    requires e.ttlSeconds.Some? ==> e.ttlSeconds.value < U32_LIMIT
    ensures var r := EntryFromProto(EntryToProto(e), now);
            && (r.Accepted? <==> TypeCode(e.entryType) <= 13)
            && (r == Accepted(e.(timestamp := now)) <==> EntryPortable(e))
  {
    TypeRoundTrip(e.entryType);
    IdentityRoundTrip(e.author.principalType, e.scope);
    if e.stateDelta.Some? {
      DeltaSurvivesIff(e.stateDelta.value);
    }
  }
}
