# coil IPAM core: pool lifecycle and BlockRequest watcher, in Dafny

This project models two parts of coil's IP address management.

**The pool manager** (`model/pool.go`) keeps address pools in etcd. A pool
has a block size and an ordered list of subnets. Each registered subnet
owns three keys: the pool record, an empty ownership marker under the
subnet's own key, and the subnet's block-assignment record. The model has
`AddPool`, `AddSubnet`, `GetPool` and `RemovePool`. Each is a pure function
from the store it sees to the store it leaves and the result it reports.

The store is an abstract etcd: a map from keys to (value, ModRevision),
plus a global revision that every committed change advances. Keys are a
datatype with one constructor per kind (`PoolKey`, `SubnetKey`,
`BlockKey`), so the key codec is injective by construction.

Both add operations send one nested transaction. The outer guard is "pool
key missing" for `AddPool` and "pool ModRevision unchanged" for `AddSubnet`.
The inner guard is "subnet key missing". Only when both hold are the three
keys put. When either fails, nothing is written, and the two failures are
reported differently.

`AddSubnet` is modelled in two layers:

- `AddSubnetAttempt` is one pass from the `RETRY` label. It works against a
  `Round`: the store as the read saw it, the store as the transaction found
  it, and whether each call reached etcd.
- `AddSubnet` runs attempts over a schedule of rounds until one finishes.

The store at commit time is related to the store at read time by
`Store.Evolves`: every entry is either untouched or the work of a later
change. All operations of the model keep that relation, and it is what
makes "same ModRevision" mean "same record".

**The BlockRequest watcher** (`v2/controllers/blockrequest_watcher.go`) has
two parts:

- an event filter: Create and Update pass when the request's status has a
  condition, Delete never passes, Generic passes by the filter's default;
- `Reconcile`: it fetches the request, ignores a not-found error, returns
  any other error, and calls `Notify(poolName)` once for a processed
  request.

`Notify` is recorded as an output trace of pool names.

`RemovePool` reads the pool record and then deletes without a guard. The
model keeps that as written. Two concrete interleavings in
`pool_scenarios.dfy` show what it allows:

- a subnet added between the read and the delete keeps its ownership marker
  after its pool is gone, so AddPool of that subnet fails on the resulting store;
- if the pool is removed and its subnet re-registered by another pool in
  between, the stale delete removes that other pool's marker, and a third
  pool can then claim the same subnet.

Files: `address_space.dfy` (value types, keys, encoding), `pool_name.dfy`
(the pool-name pattern), `store.dfy` (the revisioned store), `pool.dfy` (the
four operations), `pool_lemmas.dfy` (properties relating them),
`pool_scenarios.dfy` (concrete runs, including two races) and
`blockrequest_watcher.dfy`.

## Model

| member | source | states |
|---|---|---|
| `PoolName.MatchesIffValid` | model/pool.go:16 | The automaton for `^[a-z][a-z0-9_.-]*$` accepts a name exactly when its first character is a lower-case letter and every later character is in `[a-z0-9_.-]`; the empty name is rejected. |
| `AddressSpace.Decode` | model/pool.go:148-152 | Decoding a stored value succeeds exactly on encodings of a pool, and then gives back the encoded pool. Any other value fails with a decode error. |
| `AddressSpace.WithSubnet` | model/pool.go:96 | Appending a subnet keeps the block size, keeps the old list as a prefix and puts the new subnet last. |
| `Pools.AddPool` | model/pool.go:22-70 | Checks run in this order: name, then validation, then "exactly one subnet"; each failure leaves the store untouched. An existing pool key gives ErrPoolExists even when the subnet key is also taken. A missing pool key with a taken subnet key gives ErrUsedSubnet. Success writes exactly the pool record, the subnet marker and the empty assignment, in one change; every other key is unchanged. |
| `Pools.GetPool` | model/pool.go:138-154 | Returns ErrNotFound exactly when the pool key is absent. Otherwise it returns the decoded pool, or ErrDecode when the stored value is not a pool. A transport failure returns a transport error. |
| `Pools.AddSubnetAttempt` | model/pool.go:78-134 | The read fails exactly as GetPool does. A failed validation or transport gives an error. The attempt returns Retry exactly when it sent its transaction and the pool's ModRevision had moved since the read. With the revision unchanged, ErrUsedSubnet comes exactly when the subnet key exists, and success exactly when it does not. Every outcome but success writes nothing. Success registers the read pool with the subnet appended. |
| `Pools.AddSubnet` | model/pool.go:78-130 | The loop's result is the first attempt that does not report Retry. Every earlier attempt reported Retry. It ends in Retry only if the schedule of rounds ran out. |
| `Pools.RemoveOps` | model/pool.go:174-180 | The delete list has 1 + 2·(number of subnets) entries. It is the pool key, then the subnet key and block key of each listed subnet, in list order. |
| `Pools.RemoveOpsCoverCascade` | model/pool.go:174-180 | A key is in the delete list exactly when it is the pool's key, the key of a listed subnet, or this pool's block key for a listed subnet. |
| `Pools.CascadeKeys` | model/pool.go:174-182 | The set of keys deleted is exactly the cascade of the pool read. |
| `Pools.RemovePool` | model/pool.go:157-184 | The read fails exactly as GetPool does: ErrNotFound for an absent pool, with no change. Otherwise it deletes, without a guard, the cascade of the record as read. Every key outside that cascade keeps its entry as found at commit. |
| `Store.UnchangedRevisionUnchangedEntry` | model/pool.go:112-113 | In a store that has only evolved since the read, a key whose ModRevision still equals the one read holds the entry that was read. |
| `PoolLemmas.GetAfterAddPool` | model/pool.go:45-59 | After a successful AddPool(name, P), GetPool(name) returns P. |
| `PoolLemmas.GetAfterAddSubnet` | model/pool.go:112-124 | After a successful attempt, GetPool returns the pool as it stood at commit, with the new subnet appended. |
| `PoolLemmas.CascadeDelete` | model/pool.go:174-182 | After a successful RemovePool, GetPool returns ErrNotFound. No subnet key or block key remains for any subnet the read record listed. |
| `PoolLemmas.AddPoolKeepsConsistent` | model/pool.go:45-68 | A successful AddPool keeps the registry invariant: every listed subnet has its marker and assignment, no subnet is listed by two pools, and no pool lists a subnet twice. |
| `PoolLemmas.AddSubnetKeepsConsistent` | model/pool.go:112-133 | A successful AddSubnet attempt keeps the registry invariant, whatever other writers committed between its read and its commit. |
| `PoolLemmas.RemovePoolKeepsConsistent` | model/pool.go:174-182 | RemovePool keeps the registry invariant when the pool's ModRevision at commit is the one read. |
| `PoolLemmas.AddSubnetConverges` | model/pool.go:112-130 | If round k sends its transaction and finds the pool revision unmoved, the retry loop finishes, and its result is the attempt of some round at or before k. |
| `PoolScenarios.AdministratorScenario` | model/pool.go:22-135 | Starting from an empty store, AddPool("default", [10.0.0.0/24]) succeeds. Repeating the name gives ErrPoolExists. Reusing the subnet under "default2" gives ErrUsedSubnet. Adding 10.0.1.0/24 makes GetPool list both subnets in order. Adding to "missing" gives ErrNotFound. |
| `PoolScenarios.RemovePoolOrphansConcurrentSubnet` | model/pool.go:157-184 | Suppose a subnet is added between RemovePool's read and its delete. Its marker outlives the pool, and on the resulting store AddPool of that subnet fails for every name and block size. |
| `PoolScenarios.RemovePoolRevokesAnotherPoolsSubnet` | model/pool.go:157-184 | Suppose the pool is removed and its subnet re-registered by pool "b" between a stale RemovePool's read and its delete. That delete removes b's marker. Pool "c" can then claim the same subnet, and the registry is no longer consistent. |
| `BlockRequestWatcher.Reconcile` | v2/controllers/blockrequest_watcher.go:31-50 | The result never requeues. Notify is called at most once. It is called exactly when the request was fetched and has a condition, and then with the request's pool. A not-found fetch error is swallowed; any other fetch error is returned unchanged. |
| `BlockRequestWatcher.FilterAgreesWithReconcile` | v2/controllers/blockrequest_watcher.go:55-66 | A Create event passes exactly when its object has a status condition. An Update passes exactly when its new object has one. Either passes exactly when Reconcile on that object notifies its pool. Update gives the same verdict as Create for the new object, whatever the old object was. |
| `BlockRequestWatcher.DeleteNeverNotifies` | v2/controllers/blockrequest_watcher.go:67-69 | A Delete event never passes the filter and never causes Notify. |
| `BlockRequestWatcher.NotificationsBounded` | v2/controllers/blockrequest_watcher.go:53-71 | Over any stream of events, Notify is called at most once per admitted event. Every pool it is called with belongs to a fetched, processed request of an admitted event. |

## Left out

- etcd itself is not modelled: no client, no wire format, no leases and no `context` cancellation. Transactions are pure functions on the abstract store. A call that does not reach etcd is a boolean in the model; it yields `ErrTransport` and writes nothing. Ambiguous commits, where a transport error hides a write that did land, are not modelled.
- JSON encoding: the store holds the pool value itself. `json.Marshal` of a pool or an assignment cannot fail in the model, so the marshal error returns at model/pool.go:34-43 and 101-110 are not modelled. Unmarshal failure is modelled as `ErrDecode`.
- `coil.AddressPool.Validate` is not part of this model. It is a parameter `valid`, so every property holds for any validation rule.
- `coil.EmptyAssignment` is not part of this model. It is the constructor `EmptyAssignment(subnet, blockSize)`. The real `poolKey`, `subnetKey` and `blockKey` are the constructors of `Key`, and a subnet is its CIDR text.
- Error texts are not modelled. The three input errors of AddPool are the distinct values `ErrInvalidName`, `ErrInvalidPool` and `ErrNoSubnet`.
- Concurrency is not modelled as interleaving. Other writers show up only as the difference between a round's read-time and commit-time stores, bounded by `Store.Evolves`.
- `Pools.AddSubnet` runs against a finite schedule of rounds. The source loop is unbounded, so a schedule that runs out while still retrying ends in `Retry`.
- `Pools.RemovePool`: the race with concurrent writers is kept as written and not guarded. `PoolScenarios` shows its two consequences.
- `NodeIPAM.Notify` is not part of this model; its calls are recorded as a sequence of pool names. `SetupWithManager`'s controller wiring, logging and RBAC markers are left out too.
- `BlockRequestWatcher.NotificationsBounded` assumes one reconcile per admitted event. The controller may merge several events into one reconcile, which only lowers the count.
- `v2/pkg/constants/constants.go` holds string constants only and has no behaviour to model.
