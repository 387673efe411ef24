/** The journal's domain types (`pact-common`). */
module ConfigTypes {

  datatype Option<+T> = None | Some(value: T)

  const U32_LIMIT: nat := 0x1_0000_0000

  datatype EntryType =
    | Commit | Rollback | AutoConverge | DriftDetected | CapabilityChange | PolicyUpdate | BootConfig
    | EmergencyStart | EmergencyEnd | ExecLog | ShellSession | ServiceLifecycle | PendingApproval
    | NodeEnrolled | NodeActivated | NodeDeactivated | NodeDecommissioned | NodeAssigned
    | NodeUnassigned | CertSigned | CertRevoked

  datatype Scope = Global | VCluster(vclusterId: string) | Node(nodeId: string)

  datatype PrincipalType = Human | Agent | Service

  datatype Identity = Identity(principal: string, principalType: PrincipalType, role: string)

  datatype DeltaAction = Add | Remove | Modify

  datatype DeltaItem = DeltaItem(action: DeltaAction, key: string, value: Option<string>, previous: Option<string>)

  datatype StateDelta = StateDelta(
    mounts: seq<DeltaItem>,
    files: seq<DeltaItem>,
    network: seq<DeltaItem>,
    services: seq<DeltaItem>,
    kernel: seq<DeltaItem>,
    packages: seq<DeltaItem>,
    gpu: seq<DeltaItem>)

  /** `timestamp` is in seconds; sub-second digits are not modelled. */
  datatype ConfigEntry = ConfigEntry(
    sequence: nat,
    timestamp: int,
    entryType: EntryType,
    scope: Scope,
    author: Identity,
    parent: Option<nat>,
    stateDelta: Option<StateDelta>,
    policyRef: Option<string>,
    ttlSeconds: Option<nat>,
    emergencyReason: Option<string>)
}
