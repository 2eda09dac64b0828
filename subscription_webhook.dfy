/**
  Admission hooks of the BMCEventSubscription resource
  (apis/metal3.io/v1alpha1/bmceventsubscription_webhook.go): creation is
  allowed when the field validator finds nothing wrong, an update is always
  refused, a deletion is always allowed.

  The field validator `validateSubscription` is defined outside this file; it
  is a parameter of the hooks, so every statement here holds whatever it checks.
*/
module SubscriptionWebhook {
  import opened Optional

  /** A subscription: its name and its spec, whose fields the validator reads. */
  datatype Subscription = Subscription(name: string, spec: map<string, string>)

  /** One violation the field validator reports. */
  datatype FieldError = FieldError(field: string, detail: string)

  datatype AdmissionError =
    | Aggregate(errors: seq<FieldError>)   // every violation of a refused create
    | UpdateForbidden                      // subscriptions must be deleted and recreated instead

  /** The field validator's type: the violations it finds in a subscription. */
  type Validator = Subscription -> seq<FieldError>

  /** Folding a list of errors into one: no error for an empty list. */
  function NewAggregate(errs: seq<FieldError>): Option<AdmissionError> {
    if errs == [] then None else Some(Aggregate(errs))
  }

  /** A create is allowed exactly when the validator reports nothing; a refusal carries every violation, in order. */
  function ValidateCreate(s: Subscription, validateSubscription: Validator): (r: Option<AdmissionError>)
    ensures r.None? <==> validateSubscription(s) == []
    ensures r.Some? ==> r.value.Aggregate? && r.value.errors == validateSubscription(s)
  {
    NewAggregate(validateSubscription(s))
  }

  /** An update is refused, whatever the old and the new object hold. */
  function ValidateUpdate(s: Subscription, previous: Subscription): (r: Option<AdmissionError>)
    ensures r.Some? && r.value.UpdateForbidden?
  {
    Some(UpdateForbidden)
  }

  /** A delete is allowed, whatever the object holds. */
  function ValidateDelete(s: Subscription): (r: Option<AdmissionError>)
    ensures r.None?
  {
    None
  }

  // ---------------------------------------------------------------------------
  // The lifecycle the hooks enforce. The hosting platform commits a request to
  // its store only when the hook returns no error; a create for a name already
  // stored is refused by the platform itself.

  datatype Request =
    | Create(s: Subscription)
    | Update(s: Subscription)
    | Delete(name: string)

  /** The store after one request: changed only when the request is admitted. */
  function Commit(store: map<string, Subscription>, req: Request, validateSubscription: Validator): (r: map<string, Subscription>)
    ensures req.Create? ==> r == if req.s.name !in store && validateSubscription(req.s) == []
                                 then store[req.s.name := req.s] else store
    ensures req.Update? ==> r == store
    ensures req.Delete? ==> r == store - {req.name}
  {
    match req
    case Create(s) =>
      if s.name !in store && ValidateCreate(s, validateSubscription).None? then store[s.name := s] else store
    case Update(s) =>
      if s.name in store && ValidateUpdate(s, store[s.name]).None? then store[s.name := s] else store
    case Delete(n) =>
      if n in store && ValidateDelete(store[n]).None? then store - {n} else store
  }

  /** The store after a sequence of requests, applied in order. */
  function Replay(store: map<string, Subscription>, reqs: seq<Request>, validateSubscription: Validator): map<string, Subscription>
    decreases |reqs|
  {
    if reqs == [] then store
    else Replay(Commit(store, reqs[0], validateSubscription), reqs[1..], validateSubscription)
  }

  /** Every subscription in the store passes the validator. */
  ghost predicate AllValid(store: map<string, Subscription>, validateSubscription: Validator) {
    forall n :: n in store ==> store[n].name == n && validateSubscription(store[n]) == []
  }

  /** Only valid subscriptions ever enter the store. */
  lemma {:induction false} ReplayKeepsValid(store: map<string, Subscription>, reqs: seq<Request>, validateSubscription: Validator)
    requires AllValid(store, validateSubscription)
    ensures AllValid(Replay(store, reqs, validateSubscription), validateSubscription)
    decreases |reqs|
  {
    if reqs != [] {
      ReplayKeepsValid(Commit(store, reqs[0], validateSubscription), reqs[1..], validateSubscription);
    }
  }

  /** No request but a Delete of that name ever changes a stored subscription: subscriptions are immutable. */
  lemma {:induction false} ReplayKeepsStored(store: map<string, Subscription>, reqs: seq<Request>, validateSubscription: Validator, n: string)
    requires n in store
    requires forall i :: 0 <= i < |reqs| ==> reqs[i] != Delete(n)
    ensures n in Replay(store, reqs, validateSubscription)
    ensures Replay(store, reqs, validateSubscription)[n] == store[n]
    decreases |reqs|
  {
    if reqs != [] {
      var next := Commit(store, reqs[0], validateSubscription);
      assert n in next && next[n] == store[n];
      forall i | 0 <= i < |reqs[1..]| ensures reqs[1..][i] != Delete(n) {
        assert reqs[1..][i] == reqs[i + 1];
      }
      ReplayKeepsStored(next, reqs[1..], validateSubscription, n);
    }
  }
}
