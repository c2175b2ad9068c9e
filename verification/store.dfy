/**
  An abstract revisioned key-value store with etcd's bookkeeping: a global
  revision that every committed change advances, and for each key the
  revision of the change that last wrote it (its ModRevision).
 */
module Store {
  import opened AddressSpace

  datatype Entry = Entry(value: Value, modRev: nat)

  datatype Store = Store(kvs: map<Key, Entry>, rev: nat)

  /** Every live key was last written at some revision in 1..rev. */
  ghost predicate WellFormed(s: Store)
  {
    forall k :: k in s.kvs ==> 1 <= s.kvs[k].modRev <= s.rev
  }

  /** The ModRevision a compare in a transaction sees; a missing key
      compares as 0. */
  function ModRevision(s: Store, k: Key): nat
  {
    if k in s.kvs then s.kvs[k].modRev else 0
  }

  /** b is a later state of the store a: the revision has not gone back, and
      every entry of b is either a's entry untouched or the work of a change
      committed after a. This is what any run of transactions, ours or other
      writers', guarantees between two observations. */
  ghost predicate Evolves(a: Store, b: Store)
  {
    && a.rev <= b.rev
    && forall k :: k in b.kvs ==> (k in a.kvs && b.kvs[k] == a.kvs[k]) || b.kvs[k].modRev > a.rev
  }

  /** Keys outside ks are present in a exactly when present in b, with the
      same entry. */
  ghost predicate SameOutside(a: Store, b: Store, ks: set<Key>)
  {
    forall k :: k !in ks ==> (k in a.kvs <==> k in b.kvs) && (k in a.kvs ==> a.kvs[k] == b.kvs[k])
  }

  /** A transaction that puts every key of writes. A non-empty put is one
      change: it advances the revision by one and stamps every written key
      with the new revision. */
  function PutAll(s: Store, writes: map<Key, Value>): (t: Store)
    ensures t.kvs.Keys == s.kvs.Keys + writes.Keys
    ensures forall k :: k in writes ==> t.kvs[k] == Entry(writes[k], t.rev)
    ensures SameOutside(s, t, writes.Keys)
    ensures writes != map[] ==> t.rev == s.rev + 1
    ensures WellFormed(s) ==> WellFormed(t) && Evolves(s, t)
  {
    if writes == map[] then s
    else
      var stamped := map k | k in writes :: Entry(writes[k], s.rev + 1);
      Store(s.kvs + stamped, s.rev + 1)
  }

  /** A transaction that deletes every key of doomed, present or not. It
      advances the revision only when some key actually went away. */
  function DeleteAll(s: Store, doomed: set<Key>): (t: Store)
    ensures t.kvs.Keys == s.kvs.Keys - doomed
    ensures SameOutside(s, t, doomed)
    ensures WellFormed(s) ==> WellFormed(t) && Evolves(s, t)
  {
    Store(s.kvs - doomed, if doomed * s.kvs.Keys == {} then s.rev else s.rev + 1)
  }

  /** The guarantee an optimistic transaction relies on: if a key still
      carries the ModRevision read earlier, it still holds what was read. */
  lemma UnchangedRevisionUnchangedEntry(a: Store, b: Store, k: Key)
    requires WellFormed(a) && Evolves(a, b)
    requires k in a.kvs && ModRevision(b, k) == a.kvs[k].modRev
    ensures k in b.kvs && b.kvs[k] == a.kvs[k]
  {
  }
}
