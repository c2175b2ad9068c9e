/**
  The BlockRequest watcher: an event filter in front of a reconciler that
  wakes the node's address allocator for a pool once a BlockRequest has been
  acted on (its status carries at least one condition).
 */
module BlockRequestWatcher {

  /** One entry of a BlockRequest's status conditions. Its fields, like the
      request's name, only mirror the object's shape: the watcher looks at
      nothing but whether the list is empty. */
  datatype Condition = Condition(kind: string, status: string, reason: string, message: string)

  datatype BlockRequest = BlockRequest(name: string, poolName: string, conditions: seq<Condition>)

  /** The change events the controller delivers for BlockRequests. */
  datatype Event =
    | Create(obj: BlockRequest)
    | Update(objOld: BlockRequest, objNew: BlockRequest)
    | Delete(obj: BlockRequest)
    | Generic(obj: BlockRequest)

  /** The allocator has acted on the request. */
  predicate Processed(br: BlockRequest)
  {
    |br.conditions| > 0
  }

  /** The event filter. Create and Update look only at the object as it now
      is; Delete is always dropped; Generic keeps the filter's default of
      letting the event through. */
  predicate Admits(ev: Event)
  {
    match ev
    case Create(o) => Processed(o)
    case Update(_, o) => Processed(o)
    case Delete(_) => false
    case Generic(_) => true
  }

  /** Why fetching the request failed. */
  datatype GetError = NotFound | OtherError(reason: string)

  /** The reconciler's fetch of the request by name. */
  datatype Fetch = Fetched(br: BlockRequest) | FetchFailed(error: GetError)

  datatype Option<T> = None | Some(value: T)

  /** The controller result: whether and when to requeue. */
  datatype CtrlResult = CtrlResult(requeue: bool, requeueAfter: nat)

  /** What one reconciliation did: its result, its error, and the pools it
      passed to Notify, in call order. */
  datatype Reconciled = Reconciled(result: CtrlResult, err: Option<GetError>, notified: seq<string>)

  /** Reconcile: fetch the request; a missing request is not an error, any
      other fetch error is returned; an unprocessed request is left alone;
      a processed one wakes the allocator for its pool. It never asks to be
      requeued. */
  function Reconcile(fetch: Fetch): (r: Reconciled)
    ensures r.result == CtrlResult(false, 0)
    ensures |r.notified| <= 1
    ensures |r.notified| == 1 <==> fetch.Fetched? && Processed(fetch.br)
    ensures |r.notified| == 1 ==> r.notified[0] == fetch.br.poolName
    ensures r.err.Some? <==> fetch.FetchFailed? && fetch.error != NotFound
    ensures r.err.Some? ==> r.err.value == fetch.error
  {
    match fetch
    case FetchFailed(e) =>
      Reconciled(CtrlResult(false, 0), if e == NotFound then None else Some(e), [])
    case Fetched(br) =>
      if |br.conditions| == 0 then Reconciled(CtrlResult(false, 0), None, [])
      else Reconciled(CtrlResult(false, 0), None, [br.poolName])
  }

  /** An event reaching the watcher: filtered out, or reconciled with
      whatever the fetch then returns. */
  function Deliver(ev: Event, fetch: Fetch): Reconciled
  {
    if Admits(ev) then Reconcile(fetch) else Reconciled(CtrlResult(false, 0), None, [])
  }

  /** The filter and the reconciler agree: for an object fetched as the
      Create or Update event carried it, the event is admitted exactly when
      Reconcile would notify, and it notifies for the object's pool. Only
      the new object of an Update counts. */
  lemma FilterAgreesWithReconcile(prev: BlockRequest, br: BlockRequest)
    ensures Admits(Create(br)) <==> |br.conditions| > 0
    ensures Admits(Update(prev, br)) <==> |br.conditions| > 0
    ensures Admits(Create(br)) <==> Reconcile(Fetched(br)).notified == [br.poolName]
    ensures Admits(Update(prev, br)) <==> Reconcile(Fetched(br)).notified == [br.poolName]
    ensures !Admits(Create(br)) ==> Reconcile(Fetched(br)).notified == []
    ensures Admits(Update(prev, br)) == Admits(Create(br))
  {
  }

  /** A Delete event never passes the filter, so it never leads to Notify. */
  lemma DeleteNeverNotifies(br: BlockRequest, fetch: Fetch)
    ensures !Admits(Delete(br))
    ensures Deliver(Delete(br), fetch).notified == []
  {
  }

  /** The notifications a stream of deliveries produces, in order. */
  function Notifications(deliveries: seq<(Event, Fetch)>): seq<string>
  {
    if |deliveries| == 0 then []
    else Deliver(deliveries[0].0, deliveries[0].1).notified + Notifications(deliveries[1..])
  }

  /** How many deliveries pass the filter. */
  function AdmittedCount(deliveries: seq<(Event, Fetch)>): nat
  {
    if |deliveries| == 0 then 0
    else (if Admits(deliveries[0].0) then 1 else 0) + AdmittedCount(deliveries[1..])
  }

  /** Delivery d is one that makes Reconcile notify pool p. */
  predicate Justifies(d: (Event, Fetch), p: string)
  {
    Admits(d.0) && d.1.Fetched? && Processed(d.1.br) && d.1.br.poolName == p
  }

  /** Over any stream, Notify is called at most once per admitted event, and
      every pool it is called with is the pool of a processed request some
      admitted delivery fetched. */
  lemma {:induction false} NotificationsBounded(deliveries: seq<(Event, Fetch)>)
    ensures |Notifications(deliveries)| <= AdmittedCount(deliveries)
    ensures forall p :: p in Notifications(deliveries) ==>
      exists i :: 0 <= i < |deliveries| && Justifies(deliveries[i], p)
  {
    if |deliveries| > 0 {
      var rest := deliveries[1..];
      NotificationsBounded(rest);
      forall p | p in Notifications(deliveries)
        ensures exists i :: 0 <= i < |deliveries| && Justifies(deliveries[i], p)
      {
        if p in Deliver(deliveries[0].0, deliveries[0].1).notified {
          assert Justifies(deliveries[0], p);
        } else {
          var i :| 0 <= i < |rest| && Justifies(rest[i], p);
          assert deliveries[i + 1] == rest[i];
        }
      }
    }
  }
}
