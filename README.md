# Ironic node resolution and BMC event subscription admission, in Dafny

This project models two pieces of decision logic from the bare-metal operator:

- **The Ironic node helpers** (`pkg/provisioner/ironic/node.go`). They find a node in the Ironic provisioning service by ID, by candidate names or by MAC address. They report whether a node has ports and create PXE boot ports. They also run Ironic's boot/deploy validation, which keeps "not ready" (returned as data) apart from "the call failed" (returned as an error).
- **The BMCEventSubscription admission hooks** (`apis/metal3.io/v1alpha1/bmceventsubscription_webhook.go`). A create is allowed exactly when the field validator finds no violation, an update is always refused, and a delete is always allowed.

Files:

- `optional.dfy`: module `Optional`, the `Option` type that stands for Go's nil pointers and nil errors.
- `ironic_remote.dfy`: module `IronicRemote`. The Ironic service is the class `Ironic`. Its answers to node lookups, validate calls, failing port listings and port creations are arbitrary constant functions. Its port table is a mutable `seq<Port>`. A port query selects the ports whose address (or owning node) equals the filter value. An empty value is left out of the query and selects every port. Errors come in two types:
  - `ServiceError`, what the service answers: `NotFound` is its 404, and `ServiceFailure` is any other failed call.
  - `Error`, what the helpers return: `Remote(e)` is the service's error as the client returned it, `Wrapped(context, inner)` is an error wrapped with context, and `NodeNotFound(id)` is the error `AssertNode` makes up.
- `ironic_node.dfy`: module `IronicNode`, the helpers.
  - A Go pair `(*Node, error)` is a `NodeResult(node, err)`.
  - `Absent` is `(nil, nil)`.
  - `FindNodeByNames` is a method with a loop, as in the source. Its ghost result `asked` lists the names it looked up.
  - `CreateBootPort` changes the service's port table.
  - `Validate` builds its failure list by successive appends.
- `subscription_webhook.dfy`: module `SubscriptionWebhook`.
  - The three hooks are modelled as functions. The validator `validateSubscription` is passed in as a parameter, because its body is not part of this model.
  - `Commit` and `Replay` model the lifecycle the hooks enforce. The hosting platform commits a request only when its hook returns no error. Over any sequence of requests, only valid subscriptions enter the store, and a stored subscription changes only by being deleted.

Where the code and its comments disagree, the model follows the code. `AssertNode`'s doc comment says the node it returns is never nil. The code makes up a "not found" error only when `GetNode` already failed, so an absent node gives `(nil, nil)` (see Findings).

## Model

| member | source | states |
|---|---|---|
| `IronicRemote.Select` | pkg/provisioner/ironic/node.go:77-82 | Every port a query lists matches its filter (MAC address or owning node; an empty value matches every port), and the listing is never longer than the table. |
| `IronicRemote.SelectExactly` | pkg/provisioner/ironic/node.go:151-158 | A query lists a port iff it is in the table and matches the filter, so the listing is empty iff no port matches. |
| `IronicRemote.SelectHead` | pkg/provisioner/ironic/node.go:92-97 | The first port in the table that matches the filter is at the head of the listing. |
| `IronicRemote.Ironic.ListPorts` | pkg/provisioner/ironic/node.go:82-90 | A listing paged to the end either fails at a known stage (paging or reading) with the service's error, or contains exactly the matching ports. |
| `IronicRemote.Ironic.CreatePort` | pkg/provisioner/ironic/node.go:115-121 | No error iff the service created and acknowledged the port. The port is appended unless the service refused it: a failed call can still have stored it. |
| `IronicNode.GetNode` | pkg/provisioner/ironic/node.go:21-41 | An empty ID gives (nil, nil). Otherwise: a found node gives that node and no error; a 404 gives (nil, nil); any other failure gives a nil node and the failure wrapped with the ID. It never returns both a node and an error. |
| `IronicNode.GetNodeAsksOnlyAboutId` | pkg/provisioner/ironic/node.go:22-31 | GetNode's result depends only on the service's answer for that ID. For the empty ID it depends on nothing, so no lookup is made. |
| `IronicNode.AssertNode` | pkg/provisioner/ironic/node.go:45-52 | As written: the node is GetNode's node. An error is returned iff GetNode failed, and it is then replaced by "not found" for the ID. |
| `IronicNode.AssertNodeMayReturnNothing` | pkg/provisioner/ironic/node.go:43-51 | For the empty ID or a 404, AssertNode returns neither a node nor an error. This contradicts its doc comment that the node is never nil. |
| `IronicNode.AssertNodeHidesFailure` | pkg/provisioner/ironic/node.go:46-49 | For a failed lookup that is not a 404, AssertNode reports "not found" and drops the failure. |
| `IronicNode.AssertNodeIntended` | pkg/provisioner/ironic/node.go:43-44 | As documented: exactly one of node and error is returned. An absent node becomes "not found", and a failed lookup keeps its own error. |
| `IronicNode.StopIndex` | pkg/provisioner/ironic/node.go:58-70 | The names before the stop index are all absent. The name at the index, if any, is the first that resolves or fails. |
| `IronicNode.StopIndexIgnoresLaterNames` | pkg/provisioner/ironic/node.go:58-67 | Names after the first one that resolves or fails never change where the search stops. |
| `IronicNode.FindNodeByNames` | pkg/provisioner/ironic/node.go:56-73 | Names are looked up strictly in list order, and no name after the stop index is looked up. The result is the first name's node, or the first failure wrapped with that name and with a nil node. If every name is absent, including the empty list, the result is (nil, nil). |
| `IronicNode.FindNodeIDByMAC` | pkg/provisioner/ironic/node.go:76-98 | A listing error is returned unwrapped with "". If the MAC query selects no port, the result is "" and no error. Otherwise it is the node UUID of the first selected port. |
| `IronicNode.EmptyMacFindsFirstPort` | pkg/provisioner/ironic/node.go:77-80 | The empty MAC is no filter: the node of the table's first port is found. |
| `IronicNode.FindNodeByMAC` | pkg/provisioner/ironic/node.go:101-108 | A listing error is returned with a nil node. If the query selects no port, the result is (nil, nil) without a node lookup. Otherwise it is GetNode of the first selected port's node UUID. |
| `IronicNode.HasPorts` | pkg/provisioner/ironic/node.go:150-173 | When listing works: (true, nil) iff the node-UUID query selects some port, else (false, nil). When listing fails: false with the error wrapped for its stage (paging or status check). |
| `IronicNode.CreateBootPort` | pkg/provisioner/ironic/node.go:111-127 | The request is always one PXE-enabled port with the node's UUID and the given MAC. There is no duplicate check. On success that port is appended and HasPorts becomes true. On failure the error is wrapped with the MAC and UUID, and the table either is unchanged or has the port appended, so a retry can add a duplicate. An earlier port with the same MAC still answers MAC lookups. |
| `IronicNode.Validate` | pkg/provisioner/ironic/node.go:131-147 | A failed call returns no failures and the service's error unwrapped (`Remote(e)`, never `Wrapped`). Otherwise the error is nil and there is one failure per failed check: Boot's reason first, then Deploy's. The list has at most two entries and is empty iff both checks pass. |
| `SubscriptionWebhook.ValidateCreate` | apis/metal3.io/v1alpha1/bmceventsubscription_webhook.go:40-43 | Allowed (nil) iff the validator reports no violation. A refusal aggregates every reported violation, in order, with none dropped. |
| `SubscriptionWebhook.ValidateUpdate` | apis/metal3.io/v1alpha1/bmceventsubscription_webhook.go:46-49 | Always refused, whatever the old or new object holds. |
| `SubscriptionWebhook.ValidateDelete` | apis/metal3.io/v1alpha1/bmceventsubscription_webhook.go:52-54 | Always allowed. |
| `SubscriptionWebhook.Commit` | apis/metal3.io/v1alpha1/bmceventsubscription_webhook.go:40-54 | A store changes only when a hook admits the request. A create adds a new valid subscription, an update never changes the store, and a delete removes the name. |
| `SubscriptionWebhook.ReplayKeepsValid` | apis/metal3.io/v1alpha1/bmceventsubscription_webhook.go:40-43 | After any sequence of requests, every stored subscription passes the validator. |
| `SubscriptionWebhook.ReplayKeepsStored` | apis/metal3.io/v1alpha1/bmceventsubscription_webhook.go:46-49 | Subscriptions are immutable: a stored subscription stays unchanged through any sequence of requests that contains no delete of its name. |

## Left out

- Logging (the logr logger and its calls, and the subscription webhook logger): it has no effect on results.
- The gophercloud transport and paging internals. Node lookups, validate calls, listing faults and create outcomes are arbitrary answers. A listing has two ways to fail: fetching its pages, or reading them.
- IronicNode.FindNodeIDByMAC, IronicNode.FindNodeByMAC, IronicNode.HasPorts: the service's port query is modelled as exact string equality on the address or node UUID, with an empty value meaning no filter. The service's own checking and normalising of the address (a malformed MAC rejected, letter case ignored) is not modelled.
- The port list's two reading steps are modelled as one step. These are the port-extraction step in `findNodeIDByMAC` and the emptiness check in `HasPorts`.
- The `node_uuid` field projection: the model's ports always carry all their fields.
- Node payload fields other than the UUID: none of the modelled helpers reads them.
- The `client` and `updater` fields of Node. `updateOptsBuilder` is not part of this model.
- Error message text. Wrapping is modelled as `Wrapped(context, cause)`, which keeps what each message names and the wrapped cause.
- The body of `validateSubscription` is not part of this model. It is a parameter of the hooks, and its result is a list of violations that are never nil.
- `SetupWebhookWithManager` and the webhook registration marker: these are registration plumbing. The marker registers only create and update, which is deployment configuration.
- The service's answers to node lookups, validation and listing faults are fixed for a given `Ironic` object. Changes made to the service by other clients between calls are not modelled. The port table is the exception: `CreateBootPort` changes it.
- Concurrency, timeouts and retries: the code has none.

## Findings

| source | as written | input that shows it | evidently intended | confidence | as-written member | corrected member |
|---|---|---|---|---|---|---|
| pkg/provisioner/ironic/node.go:47 | The "not found" error replaces GetNode's error only when `node == nil && err != nil`. An absent node therefore comes back as (nil, nil), and a real lookup failure is reported as "not found". | The empty ID, or an ID the service answers with 404: AssertNode returns (nil, nil), although the doc comment at line 44 says the node is never nil. | `node == nil && err == nil`: an absent node becomes "not found", and a failed lookup keeps its own error. | high; not executed | `IronicNode.AssertNode` (`AssertNodeMayReturnNothing`, `AssertNodeHidesFailure`) | `IronicNode.AssertNodeIntended` |
