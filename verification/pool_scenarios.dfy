/**
  Concrete runs of the pool operations: the administrator's happy path, and
  two interleavings in which RemovePool's unguarded delete meets another
  writer between its read and its commit.
 */
module PoolScenarios {
  import opened AddressSpace
  import opened Store
  import opened Pools
  import opened PoolLemmas

  const Net0 := Subnet("10.0.0.0/24")
  const Net1 := Subnet("10.0.1.0/24")
  const Net2 := Subnet("10.0.2.0/24")
  const Empty := Store(map[], 0)

  function AcceptAll(p: AddressPool): bool
  {
    true
  }

  /** A pool named "default", a second pool under the same name, a second
      pool claiming the same subnet, a subnet added to "default", and a
      subnet added to a pool that does not exist. */
  lemma AdministratorScenario()
    ensures var s1 := AddPool(Empty, "default", AddressPool([Net0], 8), AcceptAll, true);
      && s1.out == Done
      && AddPool(s1.store, "default", AddressPool([Net1], 8), AcceptAll, true).out == Failed(ErrPoolExists)
      && AddPool(s1.store, "default2", AddressPool([Net0], 8), AcceptAll, true).out == Failed(ErrUsedSubnet)
      && var s2 := AddSubnetAttempt(Round(s1.store, s1.store, true, true), "default", Net1, AcceptAll);
      && s2.out == Finished(Done)
      && GetPool(s2.store, "default", true) == Ok(AddressPool([Net0, Net1], 8))
      && AddSubnetAttempt(Round(s2.store, s2.store, true, true), "missing", Net2, AcceptAll).out
         == Finished(Failed(ErrNotFound))
  {
    var p0 := AddressPool([Net0], 8);
    assert PoolName.ValidPoolName("default");
    assert PoolName.ValidPoolName("default2");
    var s1 := AddPool(Empty, "default", p0, AcceptAll, true);
    assert s1.out == Done;
    assert s1.store.kvs.Keys == RegisteredKeys("default", Net0);
    assert PoolKey("default2") !in s1.store.kvs;
    assert GetPool(s1.store, "default", true) == Ok(p0);
    assert SubnetKey(Net1) !in s1.store.kvs;
    var s2 := AddSubnetAttempt(Round(s1.store, s1.store, true, true), "default", Net1, AcceptAll);
    assert s2.out == Finished(Done);
    assert WithSubnet(p0, Net1) == AddressPool([Net0, Net1], 8);
    assert s2.store.kvs.Keys == RegisteredKeys("default", Net0) + RegisteredKeys("default", Net1);
    assert PoolKey("missing") !in s2.store.kvs;
  }

  const P0 := AddressPool([Net0], 8)

  /** Pool "default" is created (s1) and read by a RemovePool; meanwhile
      10.0.1.0/24 is added to it (s2). */
  lemma OrphanSetup() returns (s1: Store, s2: Store)
    ensures s1 == AddPool(Empty, "default", P0, AcceptAll, true).store
    ensures s2 == AddSubnetAttempt(Round(s1, s1, true, true), "default", Net1, AcceptAll).store
    ensures GetPool(s1, "default", true) == Ok(P0)
    ensures SubnetKey(Net1) in s2.kvs
  {
    assert PoolName.ValidPoolName("default");
    s1 := AddPool(Empty, "default", P0, AcceptAll, true).store;
    assert s1.kvs.Keys == RegisteredKeys("default", Net0);
    var r2 := AddSubnetAttempt(Round(s1, s1, true, true), "default", Net1, AcceptAll);
    assert r2.out == Finished(Done);
    s2 := r2.store;
  }

  /** An AddSubnet that commits between RemovePool's read and its delete
      leaves the new subnet's marker behind: the pool is gone, yet on the
      resulting store AddPool of that subnet fails for every name and block
      size. */
  lemma RemovePoolOrphansConcurrentSubnet()
    ensures var s1 := AddPool(Empty, "default", P0, AcceptAll, true).store;
      var s2 := AddSubnetAttempt(Round(s1, s1, true, true), "default", Net1, AcceptAll).store;
      var s3 := RemovePool(Round(s1, s2, true, true), "default").store;
      && GetPool(s3, "default", true) == Err(ErrNotFound)
      && SubnetKey(Net1) in s3.kvs
      && forall name, bs :: AddPool(s3, name, AddressPool([Net1], bs), AcceptAll, true).out != Done
  {
    var s1, s2 := OrphanSetup();
    var r3 := RemovePool(Round(s1, s2, true, true), "default");
    assert InCascade("default", [Net0], PoolKey("default"));
    assert !InCascade("default", [Net0], SubnetKey(Net1));
    assert SubnetKey(Net1) in r3.store.kvs;
  }


  /** Pool "a" is created (s1) and read by a RemovePool; meanwhile "a" is
      removed and "b" is created with the same subnet (s3). */
  lemma RevokeSetup() returns (s1: Store, s3: Store)
    ensures s1 == AddPool(Empty, "a", P0, AcceptAll, true).store
    ensures s3 == AddPool(RemovePool(Round(s1, s1, true, true), "a").store, "b", P0, AcceptAll, true).store
    ensures GetPool(s1, "a", true) == Ok(P0)
    ensures s3.kvs.Keys == RegisteredKeys("b", Net0)
    ensures GetPool(s3, "b", true) == Ok(P0)
    ensures Consistent(s3)
  {
    assert PoolName.ValidPoolName("a");
    assert PoolName.ValidPoolName("b");
    var r1 := AddPool(Empty, "a", P0, AcceptAll, true);
    s1 := r1.store;
    EmptyStoreConsistent();
    AddPoolKeepsConsistent(Empty, "a", P0, AcceptAll);
    assert s1.kvs.Keys == RegisteredKeys("a", Net0);
    var r2 := RemovePool(Round(s1, s1, true, true), "a");
    RemovePoolKeepsConsistent(Round(s1, s1, true, true), "a");
    assert InCascade("a", [Net0], PoolKey("a"));
    assert InCascade("a", [Net0], SubnetKey(Net0));
    assert InCascade("a", [Net0], BlockKey("a", Net0));
    assert r2.store.kvs.Keys == {};
    s3 := AddPool(r2.store, "b", P0, AcceptAll, true).store;
    AddPoolKeepsConsistent(r2.store, "b", P0, AcceptAll);
  }

  /** The stale RemovePool of "a" commits on s3 and deletes the subnet
      marker that now belongs to "b". */
  lemma RevokeCommit(s1: Store, s3: Store) returns (s4: Store)
    requires GetPool(s1, "a", true) == Ok(P0)
    requires s3.kvs.Keys == RegisteredKeys("b", Net0)
    requires GetPool(s3, "b", true) == Ok(P0)
    ensures s4 == RemovePool(Round(s1, s3, true, true), "a").store
    ensures GetPool(s4, "b", true) == Ok(P0)
    ensures PoolKey("c") !in s4.kvs && SubnetKey(Net0) !in s4.kvs
  {
    var r4 := RemovePool(Round(s1, s3, true, true), "a");
    s4 := r4.store;
    assert !InCascade("a", [Net0], PoolKey("b"));
    assert !InCascade("a", [Net0], PoolKey("c"));
    assert InCascade("a", [Net0], SubnetKey(Net0));
    assert PoolKey("c") !in s3.kvs;
  }

  /** With the marker gone, a third pool "c" claims the subnet "b" lists. */
  lemma RevokeClaim(s4: Store)
    requires GetPool(s4, "b", true) == Ok(P0)
    requires PoolKey("c") !in s4.kvs && SubnetKey(Net0) !in s4.kvs
    ensures var r5 := AddPool(s4, "c", P0, AcceptAll, true);
      && r5.out == Done
      && Net0 in Listed(r5.store, "b") && Net0 in Listed(r5.store, "c")
      && !Consistent(r5.store)
  {
    assert PoolName.ValidPoolName("c");
    var r5 := AddPool(s4, "c", P0, AcceptAll, true);
    assert PoolKey("b") !in RegisteredKeys("c", Net0);
    assert Listed(r5.store, "b") == [Net0];
    assert Listed(r5.store, "c") == [Net0];
  }

  /** If pool "a" is removed and its subnet claimed by pool "b" between a
      second RemovePool("a")'s read and its delete, that delete takes b's
      ownership marker with it; a third pool "c" can then claim the subnet,
      and two pools list the same range although the registry was
      consistent before the stale delete. */
  lemma RemovePoolRevokesAnotherPoolsSubnet()
    ensures var s1 := AddPool(Empty, "a", P0, AcceptAll, true).store;
      var s3 := AddPool(RemovePool(Round(s1, s1, true, true), "a").store, "b", P0, AcceptAll, true).store;
      var s4 := RemovePool(Round(s1, s3, true, true), "a").store;
      var r5 := AddPool(s4, "c", P0, AcceptAll, true);
      && Consistent(s3)
      && r5.out == Done
      && Net0 in Listed(r5.store, "b") && Net0 in Listed(r5.store, "c")
      && !Consistent(r5.store)
  {
    var s1, s3 := RevokeSetup();
    var s4 := RevokeCommit(s1, s3);
    RevokeClaim(s4);
  }
}
