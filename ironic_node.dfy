/**
  Node resolution, port bookkeeping and readiness validation of the Ironic
  provisioner (pkg/provisioner/ironic/node.go), against the abstract service
  of module IronicRemote.

  A Go result pair `(*Node, error)` is a `NodeResult`; `nil` is `None`.
*/
module IronicNode {
  import opened Optional
  import opened IronicRemote

  datatype NodeResult = NodeResult(node: Option<Node>, err: Option<Error>)

  /** Neither a node nor an error: the lookup found nothing. */
  const Absent := NodeResult(None, None)

  datatype IdResult = IdResult(id: string, err: Option<Error>)

  datatype BoolResult = BoolResult(value: bool, err: Option<Error>)

  // ---------------------------------------------------------------------------
  // Lookup by ID

  /** A node by its ID: the node, Absent when the ID is empty or the service answers 404, or a wrapped error. */
  function GetNode(svc: Ironic, id: string): (r: NodeResult)
    ensures id == "" ==> r == Absent
    ensures r.node.Some? ==> r.err.None?
    ensures r.node.Some? <==> id != "" && svc.nodes(id).Ok?
    ensures r.node.Some? ==> r.node.value == svc.nodes(id).value
    ensures r == Absent <==> id == "" || svc.nodes(id) == Err(NotFound)
    ensures r.err.Some? <==> id != "" && svc.nodes(id).Err? && svc.nodes(id).error != NotFound
    ensures r.err.Some? ==> r.err.value == Wrapped(NodeByID(id), Remote(svc.nodes(id).error))
  {
    if id == "" then Absent
    else match svc.nodes(id)
      case Ok(n) => NodeResult(Some(n), None)
      case Err(NotFound) => Absent
      case Err(e) => NodeResult(None, Some(Wrapped(NodeByID(id), Remote(e))))
  }

  /** GetNode consults the service about `id` alone, and about nothing at all for the empty ID. */
  lemma GetNodeAsksOnlyAboutId(a: Ironic, b: Ironic, id: string)
    requires id == "" || a.nodes(id) == b.nodes(id)
    ensures GetNode(a, id) == GetNode(b, id)
  {
  }

  /** As written: GetNode's error, if any, is replaced by a "not found" error; an absent node passes through as is. */
  function AssertNode(svc: Ironic, id: string): (r: NodeResult)
    ensures r.node == GetNode(svc, id).node
    ensures r.err.Some? <==> GetNode(svc, id).err.Some?
    ensures r.err.Some? ==> r.err.value == NodeNotFound(id)
  {
    var g := GetNode(svc, id);
    if g.node.None? && g.err.Some? then NodeResult(g.node, Some(NodeNotFound(id))) else g
  }

  /** Against its doc comment, AssertNode returns neither node nor error for the empty ID and for a 404. */
  lemma AssertNodeMayReturnNothing(svc: Ironic, id: string)
    requires id == "" || svc.nodes(id) == Err(NotFound)
    ensures AssertNode(svc, id) == Absent
  {
  }

  /** As written, AssertNode reports a failed call (not a 404) as "not found", dropping its cause. */
  lemma AssertNodeHidesFailure(svc: Ironic, id: string)
    requires id != "" && svc.nodes(id).Err? && svc.nodes(id).error != NotFound
    ensures AssertNode(svc, id) == NodeResult(None, Some(NodeNotFound(id)))
  {
  }

  /** What AssertNode's doc comment promises: an absent node becomes a "not found" error; a failed call keeps its error. */
  function AssertNodeIntended(svc: Ironic, id: string): (r: NodeResult)
    ensures r.node.Some? != r.err.Some?
    ensures r.node == GetNode(svc, id).node
    ensures GetNode(svc, id).err.Some? ==> r.err == GetNode(svc, id).err
    ensures GetNode(svc, id) == Absent ==> r.err == Some(NodeNotFound(id))
  {
    var g := GetNode(svc, id);
    if g.node.None? && g.err.None? then NodeResult(None, Some(NodeNotFound(id))) else g
  }

  // ---------------------------------------------------------------------------
  // Lookup by candidate names

  /** How many candidate names are tried: the index of the first name GetNode does not find absent, or all of them. */
  function StopIndex(svc: Ironic, names: seq<string>): (k: nat)
    ensures k <= |names|
    ensures forall j :: 0 <= j < k ==> GetNode(svc, names[j]) == Absent
    ensures k < |names| ==> GetNode(svc, names[k]) != Absent
    decreases |names|
  {
    if names == [] then 0
    else if GetNode(svc, names[0]) != Absent then 0
    else 1 + StopIndex(svc, names[1..])
  }

  /** Names listed after the one the search stops at never matter. */
  lemma {:induction false} StopIndexIgnoresLaterNames(svc: Ironic, names: seq<string>, later: seq<string>)
    requires StopIndex(svc, names) < |names|
    ensures StopIndex(svc, names + later) == StopIndex(svc, names)
    decreases |names|
  {
    assert (names + later)[0] == names[0];
    if GetNode(svc, names[0]) == Absent {
      assert (names + later)[1..] == names[1..] + later;
      StopIndexIgnoresLaterNames(svc, names[1..], later);
    }
  }

  /**
    Tries the names in order and returns the first node found. A failed lookup
    stops the search with a wrapped error; when every name is absent (or there
    are none) the result is Absent. `asked` lists the names looked up, in order.
  */
  method FindNodeByNames(svc: Ironic, names: seq<string>) returns (r: NodeResult, ghost asked: seq<string>)
    ensures var k := StopIndex(svc, names);
      asked == names[..if k < |names| then k + 1 else k]
    ensures StopIndex(svc, names) == |names| ==> r == Absent
    ensures var k := StopIndex(svc, names);
      k < |names| && GetNode(svc, names[k]).node.Some? ==> r == GetNode(svc, names[k])
    ensures var k := StopIndex(svc, names);
      k < |names| && GetNode(svc, names[k]).err.Some? ==>
        r == NodeResult(None, Some(Wrapped(NodeByName(names[k]), GetNode(svc, names[k]).err.value)))
  {
    asked := [];
    var i := 0;
    while i < |names|
      invariant 0 <= i <= |names|
      invariant asked == names[..i]
      invariant forall j :: 0 <= j < i ==> GetNode(svc, names[j]) == Absent
    {
      var name := names[i];
      asked := asked + [name];
      var found := GetNode(svc, name);
      if found.err.Some? || found.node.Some? {
        assert StopIndex(svc, names) == i;
        assert asked == names[..i + 1];
        if found.err.Some? {
          r := NodeResult(None, Some(Wrapped(NodeByName(name), found.err.value)));
        } else {
          r := found;
        }
        return;
      }
      i := i + 1;
    }
    assert names[..i] == names;
    r := Absent;
  }

  // ---------------------------------------------------------------------------
  // Lookup by MAC address

  /**
    The UUID of the node owning the first port the MAC query selects, "" when
    it selects none, or the listing's own error. The empty MAC is no filter.
  */
  function FindNodeIDByMAC(svc: Ironic, mac: string): (r: IdResult)
    reads svc
    ensures svc.listFault(ByAddress(mac)).Some? ==>
      r == IdResult("", Some(Remote(svc.listFault(ByAddress(mac)).value.1)))
    ensures svc.listFault(ByAddress(mac)).None? ==> r.err.None?
    ensures svc.listFault(ByAddress(mac)).None? && (forall p :: p in svc.ports ==> !Matches(p, ByAddress(mac))) ==>
      r.id == ""
    ensures forall i :: FirstMatch(svc.ports, ByAddress(mac), i) && svc.listFault(ByAddress(mac)).None? ==>
      r.id == svc.ports[i].nodeUUID
  {
    SelectAllHeads(svc.ports, ByAddress(mac));
    match svc.ListPorts(ByAddress(mac))
    case ListFailed(_, e) => IdResult("", Some(Remote(e)))
    case Listed(found) =>
      if |found| == 0 then IdResult("", None) else IdResult(found[0].nodeUUID, None)
  }

  /** A node by one of its MACs: Absent without a node lookup when the query selects no port, else GetNode of the first selected port's node. */
  function FindNodeByMAC(svc: Ironic, mac: string): (r: NodeResult)
    reads svc
    ensures svc.listFault(ByAddress(mac)).Some? ==>
      r == NodeResult(None, Some(Remote(svc.listFault(ByAddress(mac)).value.1)))
    ensures svc.listFault(ByAddress(mac)).None? && (forall p :: p in svc.ports ==> !Matches(p, ByAddress(mac))) ==>
      r == Absent
    ensures forall i :: FirstMatch(svc.ports, ByAddress(mac), i) && svc.listFault(ByAddress(mac)).None? ==>
      r == GetNode(svc, svc.ports[i].nodeUUID)
  {
    var found := FindNodeIDByMAC(svc, mac);
    if found.id == "" || found.err.Some? then NodeResult(None, found.err)
    else GetNode(svc, found.id)
  }

  /** The empty MAC filters nothing: the first port of the whole table decides which node is found. */
  lemma EmptyMacFindsFirstPort(svc: Ironic)
    requires svc.listFault(ByAddress("")).None? && svc.ports != []
    ensures FindNodeIDByMAC(svc, "") == IdResult(svc.ports[0].nodeUUID, None)
    ensures FindNodeByMAC(svc, "") == GetNode(svc, svc.ports[0].nodeUUID)
  {
    assert FirstMatch(svc.ports, ByAddress(""), 0);
  }

  // ---------------------------------------------------------------------------
  // Ports of a node

  /** Whether any port belongs to the node; a failed listing gives false and an error wrapped by stage. */
  function HasPorts(svc: Ironic, node: Node): (r: BoolResult)
    reads svc
    ensures r.value ==> r.err.None?
    ensures svc.listFault(ByNode(node.uuid)).None? ==>
      r.err.None? && (r.value <==> exists p :: p in svc.ports && Matches(p, ByNode(node.uuid)))
    ensures svc.listFault(ByNode(node.uuid)).Some? ==> !r.value && r.err.Some?
    ensures svc.listFault(ByNode(node.uuid)).Some? && svc.listFault(ByNode(node.uuid)).value.0 == Paging ==>
      r.err.value == Wrapped(PagingPorts, Remote(svc.listFault(ByNode(node.uuid)).value.1))
    ensures svc.listFault(ByNode(node.uuid)).Some? && svc.listFault(ByNode(node.uuid)).value.0 == Reading ==>
      r.err.value == Wrapped(CheckingPorts, Remote(svc.listFault(ByNode(node.uuid)).value.1))
  {
    match svc.ListPorts(ByNode(node.uuid))
    case ListFailed(Paging, e) => BoolResult(false, Some(Wrapped(PagingPorts, Remote(e))))
    case ListFailed(Reading, e) => BoolResult(false, Some(Wrapped(CheckingPorts, Remote(e))))
    case Listed(found) =>
      if found == [] then BoolResult(false, None)
      else assert found[0] in found; BoolResult(true, None)
  }

  /**
    Asks the service for a PXE-enabled port with this MAC for the node. No
    duplicate check is made here: whether a MAC already in the table is
    accepted is the service's decision, and an earlier port with the same
    MAC keeps answering MAC lookups. A failed call may still have stored the
    port, so retrying it can add a second one.
  */
  method CreateBootPort(svc: Ironic, node: Node, mac: string) returns (err: Option<Error>)
    modifies svc
    ensures var p := Port(mac, node.uuid, true);
      && (err.None? <==> svc.createVerdict(old(svc.ports), p).Created?)
      && (err.Some? ==> err.value == Wrapped(CreatingPort(mac, node.uuid), Remote(svc.createVerdict(old(svc.ports), p).error)))
      && svc.ports == if svc.createVerdict(old(svc.ports), p).Stores() then old(svc.ports) + [p] else old(svc.ports)
    ensures err.Some? ==> svc.ports == old(svc.ports) || svc.ports == old(svc.ports) + [Port(mac, node.uuid, true)]
    ensures err.None? && svc.listFault(ByNode(node.uuid)).None? ==> HasPorts(svc, node) == BoolResult(true, None)
    ensures forall i :: FirstMatch(old(svc.ports), ByAddress(mac), i) ==> FirstMatch(svc.ports, ByAddress(mac), i)
  {
    var p := Port(mac, node.uuid, true);
    var e := svc.CreatePort(p);
    if e.Some? {
      err := Some(Wrapped(CreatingPort(mac, node.uuid), Remote(e.value)));
    } else {
      err := None;
      assert p in svc.ports;
    }
  }

  // ---------------------------------------------------------------------------
  // Readiness

  /**
    Runs the service's validate call for the node. Failed checks come back as
    data, Boot's reason before Deploy's; a failed call comes back as the
    service's own error, unwrapped, with no failures.
  */
  method Validate(svc: Ironic, node: Node) returns (failures: seq<string>, err: Option<Error>)
    ensures |failures| <= 2
    ensures svc.validation(node.uuid).Err? ==>
      failures == [] && err == Some(Remote(svc.validation(node.uuid).error))
    ensures svc.validation(node.uuid).Ok? ==> err.None?
    ensures svc.validation(node.uuid).Ok? ==>
      var v := svc.validation(node.uuid).value;
      && |failures| == (if v.boot.ok then 0 else 1) + (if v.deploy.ok then 0 else 1)
      && (!v.boot.ok ==> failures[0] == v.boot.reason)
      && (!v.deploy.ok ==> failures[|failures| - 1] == v.deploy.reason)
  {
    failures := [];
    match svc.validation(node.uuid)
    case Err(e) =>
      err := Some(Remote(e));
    case Ok(v) =>
      err := None;
      if !v.boot.ok {
        failures := failures + [v.boot.reason];
      }
      if !v.deploy.ok {
        failures := failures + [v.deploy.reason];
      }
  }
}
