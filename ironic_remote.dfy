/**
  The remote Ironic bare-metal service, as the node helpers of the provisioner
  see it through their client. Only what the helpers observe is kept: the
  answer to a node lookup, the answer to a validate call, the port table with
  its filtered listing, and the answer to a port creation. What the service
  answers is left arbitrary (the constant fields of `Ironic`); only the port
  table is state that the helpers change.
*/
module IronicRemote {
  import opened Optional

  /** Why a call to the service failed, as the client reports it. */
  datatype ServiceError =
    | NotFound                                  // the service's 404 answer
    | ServiceFailure(code: nat)                 // any other failed call: transport, server, decoding

  /** An error the helpers return: the service's own, one wrapped with context, or one they make up. */
  datatype Error =
    | Remote(cause: ServiceError)               // the service's error, as the client returned it
    | Wrapped(context: Context, inner: Error)   // an error wrapped with context, keeping its cause
    | NodeNotFound(id: string)                  // the "not found" error AssertNode makes up itself

  /** What a wrapped error says it was doing; the message text itself is not modelled. */
  datatype Context =
    | NodeByID(id: string)
    | NodeByName(name: string)
    | CreatingPort(mac: string, nodeUUID: string)
    | PagingPorts
    | CheckingPorts

  datatype Reply<+T> = Ok(value: T) | Err(error: ServiceError)

  /** A node as fetched from the service; the helpers only ever use its UUID. */
  datatype Node = Node(uuid: string)

  datatype Port = Port(address: string, nodeUUID: string, pxeEnabled: bool)

  /**
    The two port queries the helpers make: by MAC address and by owning node.
    An empty value is left out of the query, so it selects every port.
  */
  datatype PortFilter = ByAddress(address: string) | ByNode(nodeUUID: string)

  predicate Matches(p: Port, f: PortFilter) {
    match f
    case ByAddress(a) => a == "" || p.address == a
    case ByNode(u) => u == "" || p.nodeUUID == u
  }

  /** A port listing fails either while fetching its pages or while reading them. */
  datatype ListStage = Paging | Reading

  datatype PortList = Listed(ports: seq<Port>) | ListFailed(stage: ListStage, error: ServiceError)

  /** One readiness check of a validate call: passed, or failed with a reason. */
  datatype Check = Check(ok: bool, reason: string)

  datatype Validation = Validation(boot: Check, deploy: Check)

  /**
    How the service handles a port creation: the port is stored and
    acknowledged, refused, or stored while the call still fails (a lost
    reply, or one that cannot be decoded).
  */
  datatype CreateOutcome = Created | Refused(error: ServiceError) | StoredButFailed(error: ServiceError) {
    predicate Stores() { !Refused? }
  }

  /** `i` is the first port of `ports` that `f` selects. */
  predicate FirstMatch(ports: seq<Port>, f: PortFilter, i: int) {
    0 <= i < |ports| && Matches(ports[i], f) &&
    forall j :: 0 <= j < i ==> !Matches(ports[j], f)
  }

  /** The ports of the table that a filter selects, in table order. */
  function Select(ports: seq<Port>, f: PortFilter): (r: seq<Port>)
    ensures |r| <= |ports|
    ensures forall k :: 0 <= k < |r| ==> Matches(r[k], f)
  {
    if ports == [] then []
    else (if Matches(ports[0], f) then [ports[0]] else []) + Select(ports[1..], f)
  }

  /** A listing holds exactly the ports of the table that the filter selects. */
  lemma {:induction false} SelectExactly(ports: seq<Port>, f: PortFilter)
    ensures forall p :: p in Select(ports, f) <==> p in ports && Matches(p, f)
    decreases |ports|
  {
    if ports != [] {
      SelectExactly(ports[1..], f);
      assert ports == [ports[0]] + ports[1..];
    }
  }

  /** The first port a filter selects heads its listing. */
  lemma {:induction false} SelectHead(ports: seq<Port>, f: PortFilter, i: int)
    requires FirstMatch(ports, f, i)
    ensures Select(ports, f) != [] && Select(ports, f)[0] == ports[i]
  {
    if i == 0 {
      assert Select(ports, f) == [ports[0]] + Select(ports[1..], f);
    } else {
      var tail := ports[1..];
      assert !Matches(ports[0], f);
      assert Select(ports, f) == Select(tail, f);
      forall j | 0 <= j < i - 1 ensures !Matches(tail[j], f) {
        assert tail[j] == ports[j + 1];
      }
      SelectHead(tail, f, i - 1);
    }
  }

  /** Every first match heads the listing (SelectHead for all indices at once). */
  lemma SelectAllHeads(ports: seq<Port>, f: PortFilter)
    ensures forall i :: FirstMatch(ports, f, i) ==> Select(ports, f) != [] && Select(ports, f)[0] == ports[i]
  {
    forall i | FirstMatch(ports, f, i)
      ensures Select(ports, f) != [] && Select(ports, f)[0] == ports[i]
    {
      SelectHead(ports, f, i);
    }
  }

  /** The remote service: fixed answers for nodes, validation, listing faults and creations, and a mutable port table. */
  class Ironic {
    /** The answer to a node lookup by ID or name. */
    const nodes: string -> Reply<Node>
    /** The answer to a validate call for a node UUID. */
    const validation: string -> Reply<Validation>
    /** Whether, and at which stage, a port listing with this filter fails. */
    const listFault: PortFilter -> Option<(ListStage, ServiceError)>
    /** How the service handles a new port, given the current table. */
    const createVerdict: (seq<Port>, Port) -> CreateOutcome
    /** The port table, in the order the service lists it. */
    var ports: seq<Port>

    constructor (nodes: string -> Reply<Node>, validation: string -> Reply<Validation>,
                 listFault: PortFilter -> Option<(ListStage, ServiceError)>,
                 createVerdict: (seq<Port>, Port) -> CreateOutcome, ports: seq<Port>)
      ensures this.nodes == nodes && this.validation == validation
      ensures this.listFault == listFault && this.createVerdict == createVerdict
      ensures this.ports == ports
    {
      this.nodes := nodes;
      this.validation := validation;
      this.listFault := listFault;
      this.createVerdict := createVerdict;
      this.ports := ports;
    }

    /** A listing paged to exhaustion: every port the filter selects, in table order, unless the listing fails. */
    function ListPorts(f: PortFilter): (r: PortList)
      reads this
      ensures listFault(f).None? <==> r.Listed?
      ensures r.Listed? ==> forall p :: p in r.ports <==> p in ports && Matches(p, f)
      ensures r.ListFailed? ==> listFault(f) == Some((r.stage, r.error))
    {
      SelectExactly(ports, f);
      match listFault(f)
      case None => Listed(Select(ports, f))
      case Some((stage, e)) => ListFailed(stage, e)
    }

    /**
      Asks the service to create a port. The port is appended to the table
      unless the service refuses it; a failed call may still have stored it.
    */
    method CreatePort(p: Port) returns (err: Option<ServiceError>)
      modifies this
      ensures err.None? <==> createVerdict(old(ports), p).Created?
      ensures err.Some? ==> err.value == createVerdict(old(ports), p).error
      ensures ports == if createVerdict(old(ports), p).Stores() then old(ports) + [p] else old(ports)
      ensures err.Some? ==> ports == old(ports) || ports == old(ports) + [p]
    {
      var outcome := createVerdict(ports, p);
      if outcome.Stores() {
        ports := ports + [p];
      }
      err := if outcome.Created? then None else Some(outcome.error);
    }
  }
}
