/// The dual-family `Cidr` enum: each operation matches on the variant and
/// forwards to the IPv4 or IPv6 instantiation of the engine.
module IpCidr {
  import opened Bits
  import opened Wrappers
  import opened Net
  import Base
  import V4
  import V6

  datatype Cidr = V4Block(v4: Base.Cidr) | V6Block(v6: Base.Cidr)

  /// Every block built by the constructors fits its family.
  predicate Valid(c: Cidr)
  {
    match c
    case V4Block(b) => Base.Valid(V4.BITS_LEN, b)
    case V6Block(b) => Base.Valid(V6.BITS_LEN, b)
  }

  /// `Cidr::IPV4_BITS` / `Cidr::IPV6_BITS`, chosen by the address family.
  function Width(addr: IpAddr): (r: Base.Width)
    ensures addr.V4? ==> r == 32
    ensures addr.V6? ==> r == 128
  {
    if addr.V4? then V4.BITS_LEN else V6.BITS_LEN
  }

  /// `Cidr::new_v4`
  function NewV4(addr: uint32, prefix: uint8): (r: Option<Cidr>)
    ensures r.None? <==> prefix > 32
    ensures r.Some? ==> Valid(r.value) && r.value == V4Block(Base.Cidr(prefix, addr))
  {
    V4.WordRange();
    match Base.New(V4.BITS_LEN, addr, prefix)
    case Some(b) => Some(V4Block(b))
    case None => None
  }

  /// `Cidr::new_v6`
  function NewV6(addr: uint128, prefix: uint8): (r: Option<Cidr>)
    ensures r.None? <==> prefix > 128
    ensures r.Some? ==> Valid(r.value) && r.value == V6Block(Base.Cidr(prefix, addr))
  {
    V6.WordRange();
    match Base.New(V6.BITS_LEN, addr, prefix)
    case Some(b) => Some(V6Block(b))
    case None => None
  }

  /// `Cidr::new`: dispatches on the address family; `addr()` and `prefix()`
  /// of the result give back the inputs.
  function New(addr: IpAddr, prefix: uint8): (r: Option<Cidr>)
    ensures r.None? <==> prefix > Width(addr)
    ensures r.Some? ==> Valid(r.value) && Addr(r.value) == addr && Prefix(r.value) == prefix
  {
    match addr
    case V4(a) => NewV4(a, prefix)
    case V6(a) => NewV6(a, prefix)
  }

  /// `Cidr::addr`: the stored address, tagged with the block's family.
  function Addr(c: Cidr): (r: IpAddr)
    requires Valid(c)
    ensures c.V4Block? <==> r.V4?
    ensures r.V4? ==> r.v4 == c.v4.addr
    ensures r.V6? ==> r.v6 == c.v6.addr
  {
    V4.WordRange();
    V6.WordRange();
    match c
    case V4Block(b) => V4(b.addr)
    case V6Block(b) => V6(b.addr)
  }

  /// `Cidr::prefix`
  function Prefix(c: Cidr): (r: uint8)
    requires Valid(c)
    ensures r <= (if c.V4Block? then 32 else 128)
  {
    match c
    case V4Block(b) => b.prefix
    case V6Block(b) => b.prefix
  }

  /// `Cidr::network_addr`: the per-family network address, same family.
  function NetworkAddr(c: Cidr): (r: IpAddr)
    requires Valid(c)
    ensures c.V4Block? <==> r.V4?
    ensures r.V4? ==> r.v4 == Base.NetworkAddr(V4.BITS_LEN, c.v4.addr, c.v4.prefix) <= c.v4.addr
    ensures r.V6? ==> r.v6 == Base.NetworkAddr(V6.BITS_LEN, c.v6.addr, c.v6.prefix) <= c.v6.addr
  {
    V4.WordRange();
    V6.WordRange();
    match c
    case V4Block(b) => V4(Base.NetworkAddr(V4.BITS_LEN, b.addr, b.prefix))
    case V6Block(b) => V6(Base.NetworkAddr(V6.BITS_LEN, b.addr, b.prefix))
  }

  /// `Cidr::broadcast_addr`: the per-family broadcast address, same family.
  function BroadcastAddr(c: Cidr): (r: IpAddr)
    requires Valid(c)
    ensures c.V4Block? <==> r.V4?
    ensures r.V4? ==> c.v4.addr <= r.v4 == Base.BroadcastAddr(V4.BITS_LEN, c.v4.addr, c.v4.prefix)
    ensures r.V6? ==> c.v6.addr <= r.v6 == Base.BroadcastAddr(V6.BITS_LEN, c.v6.addr, c.v6.prefix)
  {
    V4.WordRange();
    V6.WordRange();
    match c
    case V4Block(b) => V4(Base.BroadcastAddr(V4.BITS_LEN, b.addr, b.prefix))
    case V6Block(b) => V6(Base.BroadcastAddr(V6.BITS_LEN, b.addr, b.prefix))
  }

  /// `Cidr::size`: the IPv4 `u32` size is widened to `u128` without change.
  function Size(c: Cidr): (r: uint128)
    requires Valid(c)
    ensures c.V4Block? ==> r == Base.Size(V4.BITS_LEN, c.v4.prefix) < U32_MODULUS
    ensures c.V6Block? ==> r == Base.Size(V6.BITS_LEN, c.v6.prefix)
  {
    V4.WordRange();
    V6.WordRange();
    match c
    case V4Block(b) => Base.Size(V4.BITS_LEN, b.prefix)
    case V6Block(b) => Base.Size(V6.BITS_LEN, b.prefix)
  }

  /// `Cidr::contains`: false across families, otherwise the per-family test,
  /// which is membership in the interval from network to broadcast address.
  function Contains(c: Cidr, addr: IpAddr): (r: bool)
    requires Valid(c)
    ensures c.V4Block? != addr.V4? ==> !r
    ensures c.V4Block? && addr.V4? ==> (r <==> NetworkAddr(c).v4 <= addr.v4 <= BroadcastAddr(c).v4)
    ensures c.V6Block? && addr.V6? ==> (r <==> NetworkAddr(c).v6 <= addr.v6 <= BroadcastAddr(c).v6)
  {
    V4.WordRange();
    V6.WordRange();
    match (c, addr)
    case (V4Block(b), V4(a)) => Base.Contains(V4.BITS_LEN, b, a)
    case (V6Block(b), V6(a)) => Base.Contains(V6.BITS_LEN, b, a)
    case _ => false
  }

  /// `idx as u32`: keeps the low 32 bits of the index.
  function TruncateToU32(idx: uint128): (r: uint32)
    ensures idx < U32_MODULUS ==> r == idx
    ensures r <= idx && (idx - r) % U32_MODULUS == 0
  {
    RoundDownIdempotent(idx, U32_MODULUS);
    idx % U32_MODULUS
  }

  /// `Cidr::get`: for IPv4 the index is first truncated to 32 bits, then
  /// the per-family `get` decides.
  function Get(c: Cidr, idx: uint128): (r: Option<IpAddr>)
    requires Valid(c)
    ensures r.Some? ==> (c.V4Block? <==> r.value.V4?)
    ensures c.V4Block? ==> (r.None? <==> TruncateToU32(idx) >= Size(c))
    ensures c.V6Block? ==> (r.None? <==> idx >= Size(c))
    ensures r.Some? ==> r.value == GetUnchecked(c, idx) && Contains(c, r.value)
  {
    V4.WordRange();
    V6.WordRange();
    match c
    case V4Block(b) =>
      (match Base.Get(V4.BITS_LEN, b, TruncateToU32(idx))
       case Some(a) => Some(V4(a))
       case None => None)
    case V6Block(b) =>
      (match Base.Get(V6.BITS_LEN, b, idx)
       case Some(a) => Some(V6(a))
       case None => None)
  }

  /// `Cidr::get_unchecked`: wrapping `network_addr + idx` in the block's
  /// family, with the IPv4 index truncated to 32 bits.
  function GetUnchecked(c: Cidr, idx: uint128): (r: IpAddr)
    requires Valid(c)
    ensures c.V4Block? <==> r.V4?
    ensures r.V4? ==> r.v4 == (NetworkAddr(c).v4 + TruncateToU32(idx)) % U32_MODULUS
    ensures r.V6? ==> r.v6 == (NetworkAddr(c).v6 + idx) % U128_MODULUS
  {
    match c
    case V4Block(b) =>
      V4.WordRange();
      var i := TruncateToU32(idx);
      var r := Base.GetUnchecked(V4.BITS_LEN, b, i);
      WrapIsMod(NetworkAddr(c).v4, i, r, U32_MODULUS);
      V4(r)
    case V6Block(b) =>
      V6.WordRange();
      var r := Base.GetUnchecked(V6.BITS_LEN, b, idx);
      WrapIsMod(NetworkAddr(c).v6, idx, r, U128_MODULUS);
      V6(r)
  }

  /// `#[derive(PartialOrd, Ord)]` on the enum: every IPv4 block sorts before
  /// every IPv6 block; within a family the blocks compare as `Cidr<A>` does.
  function Compare(x: Cidr, y: Cidr): (r: Base.Ordering)
    ensures r == Base.Equal <==> x == y
    ensures x.V4Block? && y.V6Block? ==> r == Base.Less
    ensures x.V6Block? && y.V4Block? ==> r == Base.Greater
    ensures x.V4Block? && y.V4Block? ==> r == Base.Compare(x.v4, y.v4)
    ensures x.V6Block? && y.V6Block? ==> r == Base.Compare(x.v6, y.v6)
  {
    match (x, y)
    case (V4Block(a), V4Block(b)) => Base.Compare(a, b)
    case (V6Block(a), V6Block(b)) => Base.Compare(a, b)
    case (V4Block(_), V6Block(_)) => Base.Less
    case (V6Block(_), V4Block(_)) => Base.Greater
  }

  lemma WrapIsMod(a: nat, b: nat, r: nat, m: nat)
    requires a < m && b < m && r < m
    requires (a + b < m ==> r == a + b) && (a + b >= m ==> r == a + b - m)
    ensures r == (a + b) % m
  {
    if a + b < m {
      DivModUnique(a + b, m, 0, r);
    } else {
      DivModUnique(a + b, m, 1, r);
    }
  }

  // ---------------------------------------------------------------------------
  // Properties of the façade

  /// Building a block from its own address and prefix gives it back.
  lemma NewFromParts(c: Cidr)
    requires Valid(c)
    ensures New(Addr(c), Prefix(c)) == Some(c)
  {
  }

  /// Blocks of the two families never contain each other's addresses.
  lemma CrossFamilyNeverContains(c: Cidr, a: uint32, b: uint128)
    requires Valid(c)
    ensures c.V4Block? ==> !Contains(c, V6(b))
    ensures c.V6Block? ==> !Contains(c, V4(a))
  {
  }

  /// An IPv4 block queried with an index of 2^32 or more answers for the
  /// index's low 32 bits: `get(2^32)` on `10.0.0.0/24` is `10.0.0.0` although
  /// the block's size is 256.
  lemma V4IndexTruncation()
    ensures var c := V4Block(Base.Cidr(24, Ipv4FromOctets(10, 0, 0, 0)));
      && Valid(c)
      && Size(c) == 256
      && Get(c, U32_MODULUS) == Some(V4(Ipv4FromOctets(10, 0, 0, 0)))
  {
    V4.WordRange();
    var a := Ipv4FromOctets(10, 0, 0, 0);
    assert Pow2(8) == 256;
    assert 256 * 0xA_0000 == a;
    DivModUnique(a, 256, 0xA_0000, 0);
    DivModUnique(U32_MODULUS, U32_MODULUS, 1, 0);
    assert Base.NetworkAddr(V4.BITS_LEN, a, 24) == a;
  }

  /// The façade ordering is antisymmetric and transitive.
  lemma CompareIsTotalOrder(x: Cidr, y: Cidr, z: Cidr)
    ensures Compare(x, y) == Base.Less <==> Compare(y, x) == Base.Greater
    ensures Compare(x, y) == Base.Less && Compare(y, z) == Base.Less ==> Compare(x, z) == Base.Less
  {
  }

  /// The façade's network address is a member of the block, and so is its
  /// broadcast address (both families).
  lemma ContainsNetworkAndBroadcast(c: Cidr)
    requires Valid(c)
    ensures Contains(c, NetworkAddr(c)) && Contains(c, BroadcastAddr(c)) && Contains(c, Addr(c))
  {
  }
}
