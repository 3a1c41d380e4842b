/** The nodes and edges of the causal model. Optional text of a record becomes
    the empty string when the record is copied into a node. */
module Events {

  datatype RecordKind =
    | FdRecord | AllocRecord | ForkRecord | SpawnRecord | ExecRecord | ExecFailRecord
    | CallRecord | ResourceRecord | CompleteRecord

  datatype CallKind = Enter | Exit

  datatype FdKind = Open | Close

  datatype ResourceKind = Acquire | Release | Replace | Transfer | Use

  datatype AllocKind = Alloc | Free | Realloc

  /** `newPtrNull` says whether the text of the new pointer denotes null. */
  datatype Node = Node(
    kind: RecordKind,
    callKind: CallKind,
    fdKind: FdKind,
    allocKind: AllocKind,
    resourceKind: ResourceKind,
    pid: int,
    childPid: int,
    context: nat,
    sequence: nat,
    ns: nat,
    nsKnown: bool,
    line: int,
    size: nat,
    fd: int,
    callName: string,
    functionName: string,
    fileName: string,
    ptr: string,
    newPtr: string,
    newPtrNull: bool,
    resourceClass: string,
    resourceId: string,
    relatedId: string,
    metadata: string)

  datatype EdgeKind = CallParent | CallReturn | CallCausedEvent | ResourceLifetime | ProcessChildEvent

  datatype ModelEdge = ModelEdge(kind: EdgeKind, from: nat, to: nat)

  /** The largest value of a size_t; it also marks an absent index. */
  const SIZE_MAX: nat := 0xFFFF_FFFF_FFFF_FFFF

  predicate SameContext(a: Node, b: Node) {
    a.pid == b.pid && a.context == b.context
  }
}
