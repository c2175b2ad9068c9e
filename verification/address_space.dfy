/**
  The value types of coil's address space model: subnets, address pools,
  block-assignment records, the keys under which they live in the store and
  the values stored there.
 */
module AddressSpace {

  /** A CIDR range such as "10.0.0.0/24". Address parsing and overlap are not
      modelled: two subnets are the same subnet exactly when their text is. */
  datatype Subnet = Subnet(cidr: string)

  /** An address pool: its subnets, in the order they were added, and the
      number of addresses in one block. */
  datatype AddressPool = AddressPool(subnets: seq<Subnet>, blockSize: nat)

  /** The block-assignment record of one subnet. Registering a subnet writes
      the empty record; later grants belong to the node allocator. */
  datatype Assignment = EmptyAssignment(subnet: Subnet, blockSize: nat)

  /** Store keys. One constructor per key kind, so two different
      (kind, identifier) pairs can never name the same key. */
  datatype Key =
    | PoolKey(name: string)
    | SubnetKey(subnet: Subnet)
    | BlockKey(pool: string, subnet: Subnet)

  /** What a key holds: an encoded pool, the empty ownership marker of a
      subnet key, an encoded assignment record, or bytes that are not a pool
      record's JSON (so decoding them as a pool fails). */
  datatype Value =
    | PoolData(pool: AddressPool)
    | Marker
    | AssignData(assign: Assignment)
    | Raw(data: string)

  /** The errors the pool operations report. */
  datatype Error =
    | ErrInvalidName    // name does not match ^[a-z][a-z0-9_.-]*$
    | ErrInvalidPool    // the pool fails its own validation
    | ErrNoSubnet       // a new pool must carry exactly one subnet
    | ErrPoolExists
    | ErrUsedSubnet
    | ErrNotFound
    | ErrDecode         // the stored bytes do not decode to a pool
    | ErrTransport      // the store could not be reached

  datatype Result<T> = Ok(value: T) | Err(error: Error)

  /** The encoding of a pool record. */
  function Encode(p: AddressPool): Value
  {
    PoolData(p)
  }

  /** Decoding a stored value as a pool record: it succeeds exactly on values
      that are encodings, and then gives back the pool that was encoded. */
  function Decode(v: Value): (r: Result<AddressPool>)
    ensures r.Ok? <==> exists p :: v == Encode(p)
    ensures r.Ok? ==> Encode(r.value) == v
    ensures r.Err? ==> r.error == ErrDecode
  {
    match v
    case PoolData(p) => assert v == Encode(p); Ok(p)
    case _ => Err(ErrDecode)
  }

  /** The pool with subnet n appended to its list. */
  function WithSubnet(p: AddressPool, n: Subnet): (q: AddressPool)
    ensures q.blockSize == p.blockSize
    ensures |q.subnets| == |p.subnets| + 1 && q.subnets[|p.subnets|] == n
    ensures q.subnets[..|p.subnets|] == p.subnets
  {
    p.(subnets := p.subnets + [n])
  }
}
