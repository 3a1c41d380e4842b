/** What every edge of a finished model means, told from the records and the
    return edges alone. */
module EdgeMeanings {
  import opened CallMatching
  import opened Events
  import opened Wrappers

  // ---------- Calls around a record ----------

  /** c was entered at or before the record's number, and no record with a smaller
      number than the record returned to it. */
  ghost predicate IsAround(nodes: seq<Node>, edges: seq<ModelEdge>, c: nat, r: nat) {
    && c < |nodes| && r < |nodes| && EntersCall(nodes[c])
    && nodes[c].pid == nodes[r].pid && nodes[c].context == nodes[r].context
    && nodes[c].sequence <= nodes[r].sequence
    && forall x: nat :: x < |nodes| && ModelEdge(CallReturn, c, x) in edges ==> nodes[x].sequence >= nodes[r].sequence
  }

  /** Of the calls around a record that is no call, the one entered last. */
  ghost predicate MadeIn(nodes: seq<Node>, edges: seq<ModelEdge>, c: nat, r: nat) {
    && r < |nodes| && nodes[r].kind != CallRecord && IsAround(nodes, edges, c, r)
    && forall d: nat :: IsAround(nodes, edges, d, r) ==>
                          nodes[d].sequence < nodes[c].sequence || (nodes[d].sequence == nodes[c].sequence && c <= d)
  }

  // ---------- Lives ----------

  datatype Thing = Descriptor(fd: int) | Block(pointer: string) | Resource(cls: string, id: string)

  /** What a record begins the life of. */
  function Begun(n: Node): Option<Thing> {
    match n.kind
    case FdRecord => if n.fdKind == Open then Some(Descriptor(n.fd)) else None
    case AllocRecord =>
      if n.allocKind == Alloc then Some(Block(n.ptr))
      else if n.allocKind == Realloc && !n.newPtrNull then Some(Block(n.newPtr))
      else None
    case ResourceRecord =>
      if n.resourceKind == Acquire then Some(Resource(n.resourceClass, n.resourceId))
      else if n.resourceKind != Release && n.resourceKind != Use && n.relatedId != "" then
        Some(Resource(n.resourceClass, n.relatedId))
      else None
    case _ => None
  }

  /** What a record ends the life of. */
  function Over(n: Node): Option<Thing> {
    match n.kind
    case FdRecord => if n.fdKind == Close then Some(Descriptor(n.fd)) else None
    case AllocRecord => if n.allocKind == Alloc then None else Some(Block(n.ptr))
    case ResourceRecord =>
      if n.resourceKind == Acquire || n.resourceKind == Use then None
      else Some(Resource(n.resourceClass, n.resourceId))
    case _ => None
  }

  predicate EndsLife(nodes: seq<Node>, i: nat, j: nat) {
    && i < |nodes| && j < |nodes| && nodes[i].pid == nodes[j].pid && nodes[i].sequence < nodes[j].sequence
    && Begun(nodes[i]).Some? && Over(nodes[j]) == Begun(nodes[i])
  }

  /** Of the records that end the life begun at i, the one with the least number. */
  ghost predicate LivesTo(nodes: seq<Node>, i: nat, j: nat) {
    && EndsLife(nodes, i, j)
    && forall k: nat :: EndsLife(nodes, i, k) ==>
                          nodes[j].sequence < nodes[k].sequence || (nodes[j].sequence == nodes[k].sequence && j <= k)
  }

  /** A fork or spawn and a record of the process it names as its child. */
  predicate MadeProcess(nodes: seq<Node>, f: nat, c: nat) {
    && f < |nodes| && c < |nodes| && (nodes[f].kind == ForkRecord || nodes[f].kind == SpawnRecord)
    && nodes[c].pid == nodes[f].childPid
  }

  // ---------- Edges ----------

  ghost predicate Means(nodes: seq<Node>, edges: seq<ModelEdge>, e: ModelEdge) {
    match e.kind
    case CallReturn => ReturnsTo(nodes, edges, e.from, e.to)
    case CallParent => CalledFrom(nodes, edges, e.from, e.to)
    case CallCausedEvent => MadeIn(nodes, edges, e.from, e.to)
    case ResourceLifetime => LivesTo(nodes, e.from, e.to)
    case ProcessChildEvent => MadeProcess(nodes, e.from, e.to)
  }

  /** The edges are exactly those that mean something. */
  ghost predicate EdgesMean(nodes: seq<Node>, edges: seq<ModelEdge>) {
    forall e :: e in edges <==> Means(nodes, edges, e)
  }
}
