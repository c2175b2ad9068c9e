/**
  The pool manager: AddPool, AddSubnet, GetPool and RemovePool as pure
  functions from the store they see to the store they leave and the outcome
  they report. Each transaction is atomic: it commits all of its writes or
  none of them.
 */
module Pools {
  import opened AddressSpace
  import opened Store
  import opened PoolName

  /** What an operation that returns only an error reports. */
  datatype Outcome = Done | Failed(error: Error)

  /** One read-modify-write attempt of AddSubnet either finishes or must be
      retried because the pool changed under it. */
  datatype Attempt = Finished(outcome: Outcome) | Retry

  /** The store an operation leaves behind, and what it reports. */
  datatype After<T> = After(store: Store, out: T)

  /** One round trip against the store: the store as the read saw it, the
      store as the transaction found it when it committed, and whether the
      read and the transaction reached the store at all. Other writers may
      have committed anything in between. */
  datatype Round = Round(atRead: Store, atCommit: Store, getOk: bool, txnOk: bool)

  /** The pool's own validation (block size, subnet shapes and so on), which
      the model leaves uninterpreted. */
  type Validator = AddressPool -> bool

  /** The three keys that registering subnet n under pool name writes. */
  function RegisteredKeys(name: string, n: Subnet): set<Key>
  {
    {PoolKey(name), SubnetKey(n), BlockKey(name, n)}
  }

  /** The writes that register subnet n under pool name, with record as the
      pool's new record: the record itself, the subnet's ownership marker and
      the subnet's empty assignment record. */
  function Registration(name: string, record: AddressPool, n: Subnet): (w: map<Key, Value>)
    ensures w.Keys == RegisteredKeys(name, n)
  {
    map[PoolKey(name) := Encode(record),
        SubnetKey(n) := Marker,
        BlockKey(name, n) := AssignData(EmptyAssignment(n, record.blockSize))]
  }

  /** t is s with subnet n registered under pool name: exactly the three
      registration keys are written, in one change, and nothing else moves. */
  ghost predicate Registered(s: Store, t: Store, name: string, record: AddressPool, n: Subnet)
  {
    && t.kvs.Keys == s.kvs.Keys + RegisteredKeys(name, n)
    && t.rev == s.rev + 1
    && t.kvs[PoolKey(name)] == Entry(Encode(record), t.rev)
    && t.kvs[SubnetKey(n)] == Entry(Marker, t.rev)
    && t.kvs[BlockKey(name, n)] == Entry(AssignData(EmptyAssignment(n, record.blockSize)), t.rev)
    && SameOutside(s, t, RegisteredKeys(name, n))
  }

  /** The checks AddPool makes before it touches the store. */
  predicate Admissible(name: string, pool: AddressPool, valid: Validator)
  {
    ValidPoolName(name) && valid(pool) && |pool.subnets| == 1
  }

  /** AddPool(name, pool): creates a pool with its single subnet. The name,
      the pool's validation and the subnet count are checked first, in that
      order. Then one transaction: if the pool key is missing, and within
      that if the subnet key is missing, the pool record, the subnet marker
      and the empty assignment record are put together. */
  function AddPool(s: Store, name: string, pool: AddressPool, valid: Validator, reachable: bool): (r: After<Outcome>)
    // input errors, in the order they are checked, before any store access
    ensures !ValidPoolName(name) ==> r.out == Failed(ErrInvalidName)
    ensures ValidPoolName(name) && !valid(pool) ==> r.out == Failed(ErrInvalidPool)
    ensures ValidPoolName(name) && valid(pool) && |pool.subnets| != 1 ==> r.out == Failed(ErrNoSubnet)
    ensures Admissible(name, pool, valid) && !reachable ==> r.out == Failed(ErrTransport)
    // the pool guard is decided first, whatever the subnet key holds
    ensures Admissible(name, pool, valid) && reachable ==>
      (r.out == Failed(ErrPoolExists) <==> PoolKey(name) in s.kvs)
    ensures Admissible(name, pool, valid) && reachable ==>
      (r.out == Failed(ErrUsedSubnet) <==> PoolKey(name) !in s.kvs && SubnetKey(pool.subnets[0]) in s.kvs)
    // all or nothing
    ensures r.out.Failed? ==> r.store == s
    ensures r.out == Done <==>
      Admissible(name, pool, valid) && reachable && PoolKey(name) !in s.kvs && SubnetKey(pool.subnets[0]) !in s.kvs
    ensures r.out == Done ==> Registered(s, r.store, name, pool, pool.subnets[0])
    ensures WellFormed(s) ==> WellFormed(r.store) && Evolves(s, r.store)
  {
    if !ValidPoolName(name) then After(s, Failed(ErrInvalidName))
    else if !valid(pool) then After(s, Failed(ErrInvalidPool))
    else if |pool.subnets| != 1 then After(s, Failed(ErrNoSubnet))
    else if !reachable then After(s, Failed(ErrTransport))
    else if PoolKey(name) in s.kvs then After(s, Failed(ErrPoolExists))
    else if SubnetKey(pool.subnets[0]) in s.kvs then After(s, Failed(ErrUsedSubnet))
    else After(PutAll(s, Registration(name, pool, pool.subnets[0])), Done)
  }

  /** GetPool(name): fetches and decodes the pool record. */
  function GetPool(s: Store, name: string, reachable: bool): (r: Result<AddressPool>)
    ensures !reachable ==> r == Err(ErrTransport)
    ensures reachable ==> (r == Err(ErrNotFound) <==> PoolKey(name) !in s.kvs)
    ensures reachable && PoolKey(name) in s.kvs ==>
      (r.Ok? <==> exists p :: s.kvs[PoolKey(name)].value == Encode(p))
    ensures reachable && PoolKey(name) in s.kvs && r.Err? ==> r.error == ErrDecode
    ensures r.Ok? ==> PoolKey(name) in s.kvs && s.kvs[PoolKey(name)].value == Encode(r.value)
  {
    if !reachable then Err(ErrTransport)
    else if PoolKey(name) !in s.kvs then Err(ErrNotFound)
    else Decode(s.kvs[PoolKey(name)].value)
  }

  /** An attempt of AddSubnet got past its read and its checks and sends its
      transaction. */
  ghost predicate Commits(rd: Round, name: string, n: Subnet, valid: Validator)
  {
    var g := GetPool(rd.atRead, name, rd.getOk);
    g.Ok? && valid(WithSubnet(g.value, n)) && rd.txnOk
  }

  /** The pool's ModRevision moved between the read and the commit. */
  ghost predicate PoolMoved(rd: Round, name: string)
    requires PoolKey(name) in rd.atRead.kvs
  {
    ModRevision(rd.atCommit, PoolKey(name)) != rd.atRead.kvs[PoolKey(name)].modRev
  }

  /** One pass of AddSubnet(name, n) from the RETRY label: read the pool with
      its ModRevision, append n, validate, then one transaction: if the
      pool's ModRevision is unchanged, and within that if the subnet key is
      missing, put the new pool record, the subnet marker and the empty
      assignment record. */
  function AddSubnetAttempt(rd: Round, name: string, n: Subnet, valid: Validator): (r: After<Attempt>)
    // the read step fails exactly as GetPool does
    ensures GetPool(rd.atRead, name, rd.getOk).Err? ==>
      r.out == Finished(Failed(GetPool(rd.atRead, name, rd.getOk).error))
    ensures GetPool(rd.atRead, name, rd.getOk).Ok? && !valid(WithSubnet(GetPool(rd.atRead, name, rd.getOk).value, n)) ==>
      r.out == Finished(Failed(ErrInvalidPool))
    ensures GetPool(rd.atRead, name, rd.getOk).Ok? && valid(WithSubnet(GetPool(rd.atRead, name, rd.getOk).value, n)) && !rd.txnOk ==>
      r.out == Finished(Failed(ErrTransport))
    // a retry happens exactly when the pool's revision moved
    ensures r.out == Retry <==> Commits(rd, name, n, valid) && PoolMoved(rd, name)
    ensures Commits(rd, name, n, valid) && !PoolMoved(rd, name) ==>
      (r.out == Finished(Failed(ErrUsedSubnet)) <==> SubnetKey(n) in rd.atCommit.kvs)
    // both guards hold: the attempt succeeds
    ensures Commits(rd, name, n, valid) && !PoolMoved(rd, name) && SubnetKey(n) !in rd.atCommit.kvs ==>
      r.out == Finished(Done)
    // every attempt that does not succeed writes nothing
    ensures r.out != Finished(Done) ==> r.store == rd.atCommit
    ensures r.out == Finished(Done) ==>
      && Commits(rd, name, n, valid) && !PoolMoved(rd, name) && SubnetKey(n) !in rd.atCommit.kvs
      && Registered(rd.atCommit, r.store, name, WithSubnet(GetPool(rd.atRead, name, true).value, n), n)
    ensures WellFormed(rd.atCommit) ==> WellFormed(r.store) && Evolves(rd.atCommit, r.store)
  {
    var pkey := PoolKey(name);
    match GetPool(rd.atRead, name, rd.getOk)
    case Err(e) => After(rd.atCommit, Finished(Failed(e)))
    case Ok(p) =>
      var grown := WithSubnet(p, n);
      if !valid(grown) then After(rd.atCommit, Finished(Failed(ErrInvalidPool)))
      else if !rd.txnOk then After(rd.atCommit, Finished(Failed(ErrTransport)))
      else if ModRevision(rd.atCommit, pkey) != rd.atRead.kvs[pkey].modRev then After(rd.atCommit, Retry)
      else if SubnetKey(n) in rd.atCommit.kvs then After(rd.atCommit, Finished(Failed(ErrUsedSubnet)))
      else After(PutAll(rd.atCommit, Registration(name, grown, n)), Finished(Done))
  }

  /** AddSubnet(name, n) with its retry loop, run against a schedule of
      rounds: it keeps retrying while attempts report Retry. The result is
      the first attempt that finishes; if the schedule runs out first, the
      call is still retrying. */
  function AddSubnet(rounds: seq<Round>, name: string, n: Subnet, valid: Validator): (r: After<Attempt>)
    requires |rounds| > 0
    ensures exists i :: (
              && 0 <= i < |rounds|
              && r == AddSubnetAttempt(rounds[i], name, n, valid)
              && (forall j :: 0 <= j < i ==> AddSubnetAttempt(rounds[j], name, n, valid).out == Retry)
              && (r.out == Retry ==> i == |rounds| - 1))
    decreases |rounds|
  {
    var first := AddSubnetAttempt(rounds[0], name, n, valid);
    if first.out.Retry? && |rounds| > 1 then
      var r := AddSubnet(rounds[1..], name, n, valid);
      assert forall j :: 1 <= j < |rounds| ==> rounds[j] == rounds[1..][j - 1];
      r
    else first
  }

  /** Whether key k is in the cascade of removing pool name whose record
      lists subnets. */
  predicate InCascade(name: string, subnets: seq<Subnet>, k: Key)
  {
    match k
    case PoolKey(m) => m == name
    case SubnetKey(n) => n in subnets
    case BlockKey(m, n) => m == name && n in subnets
  }

  /** The delete list RemovePool builds: the pool key, then the subnet key
      and the block key of each listed subnet, in list order. */
  function RemoveOps(name: string, subnets: seq<Subnet>): (ops: seq<Key>)
    ensures |ops| == 1 + 2 * |subnets|
    ensures ops[0] == PoolKey(name)
    ensures forall i :: 0 <= i < |subnets| ==>
      ops[1 + 2 * i] == SubnetKey(subnets[i]) && ops[2 + 2 * i] == BlockKey(name, subnets[i])
    decreases |subnets|
  {
    if |subnets| == 0 then [PoolKey(name)]
    else
      var last := subnets[|subnets| - 1];
      RemoveOps(name, subnets[..|subnets| - 1]) + [SubnetKey(last), BlockKey(name, last)]
  }

  /** The delete list names exactly the keys of the cascade. */
  lemma RemoveOpsCoverCascade(name: string, subnets: seq<Subnet>, k: Key)
    ensures k in RemoveOps(name, subnets) <==> InCascade(name, subnets, k)
  {
    var ops := RemoveOps(name, subnets);
    if k in ops {
      var j :| 0 <= j < |ops| && ops[j] == k;
      if j > 0 {
        var i := (j - 1) / 2;
        assert j == 1 + 2 * i || j == 2 + 2 * i;
      }
    }
    if InCascade(name, subnets, k) {
      match k
      case PoolKey(_) =>
        assert ops[0] == k;
      case SubnetKey(n) =>
        var i :| 0 <= i < |subnets| && subnets[i] == n;
        assert ops[1 + 2 * i] == k;
      case BlockKey(_, n) =>
        var i :| 0 <= i < |subnets| && subnets[i] == n;
        assert ops[2 + 2 * i] == k;
    }
  }

  /** The set of keys RemovePool deletes. */
  function CascadeKeys(name: string, subnets: seq<Subnet>): (doomed: set<Key>)
    ensures forall k :: k in doomed <==> InCascade(name, subnets, k)
  {
    var ops := RemoveOps(name, subnets);
    forall k ensures k in ops <==> InCascade(name, subnets, k) {
      RemoveOpsCoverCascade(name, subnets, k);
    }
    set k | k in ops
  }

  /** RemovePool(name): reads the pool record, then deletes in one
      transaction the pool key and the subnet and block keys of every subnet
      that record lists. The transaction has no guard, so it deletes
      whatever those keys hold by then. */
  function RemovePool(rd: Round, name: string): (r: After<Outcome>)
    ensures GetPool(rd.atRead, name, rd.getOk).Err? ==>
      r.out == Failed(GetPool(rd.atRead, name, rd.getOk).error)
    ensures GetPool(rd.atRead, name, rd.getOk).Ok? && !rd.txnOk ==> r.out == Failed(ErrTransport)
    ensures r.out.Failed? ==> r.store == rd.atCommit
    ensures r.out == Done <==> GetPool(rd.atRead, name, rd.getOk).Ok? && rd.txnOk
    ensures r.out == Done ==>
      var listed := GetPool(rd.atRead, name, true).value.subnets;
      && (forall k :: k in r.store.kvs <==> k in rd.atCommit.kvs && !InCascade(name, listed, k))
      && (forall k :: k in r.store.kvs ==> r.store.kvs[k] == rd.atCommit.kvs[k])
    ensures WellFormed(rd.atCommit) ==> WellFormed(r.store) && Evolves(rd.atCommit, r.store)
  {
    match GetPool(rd.atRead, name, rd.getOk)
    case Err(e) => After(rd.atCommit, Failed(e))
    case Ok(p) =>
      if !rd.txnOk then After(rd.atCommit, Failed(ErrTransport))
      else After(DeleteAll(rd.atCommit, CascadeKeys(name, p.subnets)), Done)
  }
}
