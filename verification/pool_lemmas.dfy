/**
  Properties that relate the pool operations to each other: what GetPool
  reads back after a write, the ownership invariant the transactions keep,
  when the AddSubnet loop stops retrying, and what RemovePool's unguarded
  delete does under concurrent writers.
 */
module PoolLemmas {
  import opened AddressSpace
  import opened Store
  import opened PoolName
  import opened Pools

  /** The subnets the record of pool name lists, or none when there is no
      readable record. */
  function Listed(s: Store, name: string): seq<Subnet>
  {
    match GetPool(s, name, true)
    case Ok(p) => p.subnets
    case Err(_) => []
  }

  /** Every listed subnet has its ownership marker and assignment record. */
  ghost predicate Owned(s: Store)
  {
    forall name, n :: n in Listed(s, name) ==> SubnetKey(n) in s.kvs && BlockKey(name, n) in s.kvs
  }

  /** No subnet is listed by two pools. */
  ghost predicate Exclusive(s: Store)
  {
    forall a, b, n :: n in Listed(s, a) && n in Listed(s, b) ==> a == b
  }

  /** No pool lists a subnet twice. */
  ghost predicate NoRepeats(s: Store)
  {
    forall name, i, j :: 0 <= i < j < |Listed(s, name)| ==> Listed(s, name)[i] != Listed(s, name)[j]
  }

  /** The registry invariant: each subnet belongs to at most one pool, once. */
  ghost predicate Consistent(s: Store)
  {
    Owned(s) && Exclusive(s) && NoRepeats(s)
  }

  lemma EmptyStoreConsistent()
    ensures Consistent(Store(map[], 0))
  {
  }

  /** After a registration only the registering pool's list changes. */
  lemma ListedAfterRegistration(s: Store, t: Store, name: string, record: AddressPool, n: Subnet)
    requires Registered(s, t, name, record, n)
    ensures Listed(t, name) == record.subnets
    ensures forall m :: m != name ==> Listed(t, m) == Listed(s, m)
  {
    forall m | m != name
      ensures Listed(t, m) == Listed(s, m)
    {
      assert PoolKey(m) !in RegisteredKeys(name, n);
    }
  }

  /** GetPool reads back the pool a successful AddPool wrote. */
  lemma GetAfterAddPool(s: Store, name: string, pool: AddressPool, valid: Validator)
    requires AddPool(s, name, pool, valid, true).out == Done
    ensures GetPool(AddPool(s, name, pool, valid, true).store, name, true) == Ok(pool)
  {
  }

  /** After a successful attempt GetPool reads back the pool as it stood at
      commit with n appended: the unchanged ModRevision means nobody rewrote
      the record since it was read. */
  lemma GetAfterAddSubnet(rd: Round, name: string, n: Subnet, valid: Validator)
    requires WellFormed(rd.atRead) && Evolves(rd.atRead, rd.atCommit)
    requires AddSubnetAttempt(rd, name, n, valid).out == Finished(Done)
    ensures GetPool(rd.atCommit, name, true).Ok?
    ensures GetPool(AddSubnetAttempt(rd, name, n, valid).store, name, true)
         == Ok(WithSubnet(GetPool(rd.atCommit, name, true).value, n))
  {
    UnchangedRevisionUnchangedEntry(rd.atRead, rd.atCommit, PoolKey(name));
  }

  /** After RemovePool, the pool is gone and so is every subnet and block key
      of the subnets its record listed when it was read. */
  lemma CascadeDelete(rd: Round, name: string)
    requires RemovePool(rd, name).out == Done
    ensures GetPool(RemovePool(rd, name).store, name, true) == Err(ErrNotFound)
    ensures forall n :: n in GetPool(rd.atRead, name, true).value.subnets ==>
      && SubnetKey(n) !in RemovePool(rd, name).store.kvs
      && BlockKey(name, n) !in RemovePool(rd, name).store.kvs
  {
    var t := RemovePool(rd, name).store;
    assert InCascade(name, GetPool(rd.atRead, name, true).value.subnets, PoolKey(name));
  }

  /** t is s with subnet n appended to pool name's list and registered:
      other pools' lists are as they were, no key went away, and n had no
      marker before. */
  ghost predicate Appended(s: Store, t: Store, name: string, n: Subnet)
  {
    && Listed(t, name) == Listed(s, name) + [n]
    && (forall m :: m != name ==> Listed(t, m) == Listed(s, m))
    && s.kvs.Keys <= t.kvs.Keys
    && SubnetKey(n) !in s.kvs
    && SubnetKey(n) in t.kvs && BlockKey(name, n) in t.kvs
  }

  lemma AppendedKeepsOwned(s: Store, t: Store, name: string, n: Subnet)
    requires Owned(s) && Appended(s, t, name, n)
    ensures Owned(t)
  {
    forall m, x | x in Listed(t, m)
      ensures SubnetKey(x) in t.kvs && BlockKey(m, x) in t.kvs
    {
      if x != n || m != name {
        assert x in Listed(s, m);
      }
    }
  }

  lemma AppendedKeepsExclusive(s: Store, t: Store, name: string, n: Subnet)
    requires Owned(s) && Exclusive(s) && Appended(s, t, name, n)
    ensures Exclusive(t)
  {
    forall a, b, x | x in Listed(t, a) && x in Listed(t, b)
      ensures a == b
    {
      if x != n {
        assert x in Listed(s, a) && x in Listed(s, b);
      } else {
        assert x !in Listed(s, a) && x !in Listed(s, b);
      }
    }
  }

  lemma AppendedKeepsNoRepeats(s: Store, t: Store, name: string, n: Subnet)
    requires Owned(s) && NoRepeats(s) && Appended(s, t, name, n)
    ensures NoRepeats(t)
  {
    var before := Listed(s, name);
    assert n !in before;
    forall m, i, j | 0 <= i < j < |Listed(t, m)|
      ensures Listed(t, m)[i] != Listed(t, m)[j]
    {
      if m == name {
        assert Listed(t, m)[i] == before[i];
        if j < |before| {
          assert Listed(t, m)[j] == before[j];
        }
      }
    }
  }

  /** Registering a subnet that had no marker keeps the registry consistent:
      no pool, not even the one it joins, listed it before. */
  lemma AppendedKeepsConsistent(s: Store, t: Store, name: string, n: Subnet)
    requires Consistent(s) && Appended(s, t, name, n)
    ensures Consistent(t)
  {
    AppendedKeepsOwned(s, t, name, n);
    AppendedKeepsExclusive(s, t, name, n);
    AppendedKeepsNoRepeats(s, t, name, n);
  }

  /** A successful AddPool keeps the registry consistent: its subnet had no
      marker, so no other pool listed it. */
  lemma AddPoolKeepsConsistent(s: Store, name: string, pool: AddressPool, valid: Validator)
    requires Consistent(s)
    requires AddPool(s, name, pool, valid, true).out == Done
    ensures Consistent(AddPool(s, name, pool, valid, true).store)
  {
    var t := AddPool(s, name, pool, valid, true).store;
    var n0 := pool.subnets[0];
    ListedAfterRegistration(s, t, name, pool, n0);
    assert Listed(s, name) == [];
    assert Listed(t, name) == Listed(s, name) + [n0];
    AppendedKeepsConsistent(s, t, name, n0);
  }

  /** A successful AddSubnet attempt keeps the registry consistent, whatever
      other writers committed between its read and its commit: the
      unchanged revision pins the pool record it extends, and the subnet had
      no marker at commit. */
  lemma AddSubnetKeepsConsistent(rd: Round, name: string, n: Subnet, valid: Validator)
    requires WellFormed(rd.atRead) && Evolves(rd.atRead, rd.atCommit)
    requires Consistent(rd.atCommit)
    requires AddSubnetAttempt(rd, name, n, valid).out == Finished(Done)
    ensures Consistent(AddSubnetAttempt(rd, name, n, valid).store)
  {
    var s := rd.atCommit;
    var t := AddSubnetAttempt(rd, name, n, valid).store;
    UnchangedRevisionUnchangedEntry(rd.atRead, s, PoolKey(name));
    var read := GetPool(rd.atRead, name, true).value;
    assert Listed(s, name) == read.subnets;
    ListedAfterRegistration(s, t, name, WithSubnet(read, n), n);
    AppendedKeepsConsistent(s, t, name, n);
  }

  /** RemovePool keeps the registry consistent when the pool record it read
      is still the current one at commit. */
  lemma RemovePoolKeepsConsistent(rd: Round, name: string)
    requires WellFormed(rd.atRead) && Evolves(rd.atRead, rd.atCommit)
    requires Consistent(rd.atCommit)
    requires RemovePool(rd, name).out == Done
    requires ModRevision(rd.atCommit, PoolKey(name)) == ModRevision(rd.atRead, PoolKey(name))
    ensures Consistent(RemovePool(rd, name).store)
  {
    var s := rd.atCommit;
    var t := RemovePool(rd, name).store;
    UnchangedRevisionUnchangedEntry(rd.atRead, s, PoolKey(name));
    var listed := Listed(s, name);
    assert listed == GetPool(rd.atRead, name, true).value.subnets;
    assert InCascade(name, listed, PoolKey(name));
    assert Listed(t, name) == [];
    forall m | m != name
      ensures Listed(t, m) == Listed(s, m)
    {
      assert !InCascade(name, listed, PoolKey(m));
    }
    forall m, x | x in Listed(t, m)
      ensures SubnetKey(x) in t.kvs && BlockKey(m, x) in t.kvs
    {
      assert m != name && x in Listed(s, m);
      assert x !in listed;
      assert !InCascade(name, listed, SubnetKey(x));
      assert !InCascade(name, listed, BlockKey(m, x));
    }
    forall a, b, x | x in Listed(t, a) && x in Listed(t, b)
      ensures a == b
    {
      assert x in Listed(s, a) && x in Listed(s, b);
    }
    forall m, i, j | 0 <= i < j < |Listed(t, m)|
      ensures Listed(t, m)[i] != Listed(t, m)[j]
    {
      assert Listed(t, m) == Listed(s, m);
    }
  }

  /** The retry loop finishes no later than the first round that sends its
      transaction and finds the pool's revision where it was read. */
  lemma AddSubnetConverges(rounds: seq<Round>, name: string, n: Subnet, valid: Validator, k: nat)
    requires k < |rounds|
    requires Commits(rounds[k], name, n, valid) && !PoolMoved(rounds[k], name)
    ensures AddSubnet(rounds, name, n, valid).out.Finished?
    ensures exists i :: 0 <= i <= k && AddSubnet(rounds, name, n, valid) == AddSubnetAttempt(rounds[i], name, n, valid)
  {
  }
}
