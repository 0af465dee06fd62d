/// The generic CIDR block engine, written once over the address width
/// `bits` (the family's `BITS_LEN`). An address is its bit pattern, a natural
/// number below 2^bits, and the representation type used for sizes and
/// indices (`u32` for IPv4, `u128` for IPv6) has the same width.
module Base {
  import opened Bits
  import opened Wrappers

  /// `Cidr<A>`: the prefix is declared first, so the derived ordering compares
  /// prefixes before addresses.
  datatype Cidr = Cidr(prefix: uint8, addr: nat)

  /// `BITS_LEN`: the families instantiate it with 32 and 128.
  type Width = w: uint8 | 0 < w witness 32

  /// What the validating constructor guarantees of every block of width `bits`.
  predicate Valid(bits: Width, c: Cidr)
  {
    c.prefix <= bits && c.addr < Pow2(bits)
  }

  /// `Cidr::new`: refuses a prefix longer than the address; `addr()` and
  /// `prefix()` (the fields) give back exactly what was passed in.
  function New(bits: Width, addr: nat, prefix: uint8): (r: Option<Cidr>)
    requires addr < Pow2(bits)
    ensures r.None? <==> prefix > bits
    ensures r.Some? ==> Valid(bits, r.value) && r.value.addr == addr && r.value.prefix == prefix
  {
    if prefix > bits then None else Some(Cidr(prefix, addr))
  }

  /// `mask(prefix)`: zero for prefix 0, otherwise `MAX << (BITS_LEN - prefix)`.
  function Mask(bits: Width, prefix: uint8): (r: nat)
    ensures r < Pow2(bits)
    ensures prefix == 0 ==> r == 0
    ensures 0 < prefix <= bits ==> Pow2(bits - prefix) <= Pow2(bits) && r == Pow2(bits) - Pow2(bits - prefix)
    ensures bits < prefix ==> r == Pow2(bits) - 1
  {
    if prefix == 0 then 0
    else
      var shift := SaturatingSub(bits, prefix);
      ShiftAllOnes(shift, bits);
      ShiftLeft(Pow2(bits) - 1, shift, bits)
  }

  /// `network_addr`: `addr & mask(prefix)`, the lowest address of the block.
  function NetworkAddr(bits: Width, addr: nat, prefix: uint8): (r: nat)
    requires addr < Pow2(bits)
    ensures r <= addr
    ensures prefix == 0 ==> r == 0
    ensures 0 < prefix <= bits ==> r == addr - addr % Pow2(bits - prefix)
    ensures bits < prefix ==> r == addr
  {
    var m := Mask(bits, prefix);
    if 0 < prefix <= bits then
      AndHighMask(addr, bits - prefix, bits);
      And(addr, m, bits)
    else if bits < prefix then
      AndHighMask(addr, 0, bits);
      And(addr, m, bits)
    else
      And(addr, m, bits)
  }

  /// `broadcast_addr`: `addr | !mask(prefix)`, the highest address of the block.
  function BroadcastAddr(bits: Width, addr: nat, prefix: uint8): (r: nat)
    requires addr < Pow2(bits)
    ensures addr <= r < Pow2(bits)
    ensures prefix == 0 ==> r == Pow2(bits) - 1
    ensures 0 < prefix <= bits ==> r == NetworkAddr(bits, addr, prefix) + Pow2(bits - prefix) - 1
    ensures bits < prefix ==> r == addr
  {
    var m := Mask(bits, prefix);
    NotComplement(m, bits);
    if prefix == 0 then
      OrLowOnes(addr, bits, bits);
      SmallMod(addr, Pow2(bits));
      Or(addr, Not(m, bits), bits)
    else if prefix <= bits then
      OrLowOnes(addr, bits - prefix, bits);
      Or(addr, Not(m, bits), bits)
    else
      OrLowOnes(addr, 0, bits);
      Or(addr, Not(m, bits), bits)
  }

  /// `size(prefix)`: `2^(BITS_LEN - prefix)`, except that a /0 block reports
  /// the representation's maximum (2^bits - 1) because 2^bits does not fit.
  function Size(bits: Width, prefix: uint8): (r: nat)
    ensures r < Pow2(bits)
    ensures prefix == 0 ==> r == Pow2(bits) - 1
    ensures 0 < prefix <= bits ==> r == Pow2(bits - prefix)
  {
    if prefix == 0 then Pow2(bits) - 1
    else
      var shift := SaturatingSub(bits, prefix);
      ShiftOne(shift, bits);
      ShiftLeft(1, shift, bits)
  }

  /// `contains`: the address agrees with the block on the masked bits, which
  /// is exactly membership in the interval from network to broadcast address.
  function Contains(bits: Width, c: Cidr, addr: nat): (r: bool)
    requires Valid(bits, c) && addr < Pow2(bits)
    ensures r <==> NetworkAddr(bits, c.addr, c.prefix) <= addr <= BroadcastAddr(bits, c.addr, c.prefix)
  {
    if c.prefix == 0 then
      And(addr, Mask(bits, c.prefix), bits) == NetworkAddr(bits, c.addr, c.prefix)
    else
      SameBlock(addr, c.addr, Pow2(bits - c.prefix));
      assert And(addr, Mask(bits, c.prefix), bits) == NetworkAddr(bits, addr, c.prefix);
      And(addr, Mask(bits, c.prefix), bits) == NetworkAddr(bits, c.addr, c.prefix)
  }

  /// `get_unchecked`: `network_addr + idx` with wrap-around modulo 2^bits.
  function GetUnchecked(bits: Width, c: Cidr, idx: nat): (r: nat)
    requires Valid(bits, c) && idx < Pow2(bits)
    ensures r < Pow2(bits)
    ensures var n := NetworkAddr(bits, c.addr, c.prefix);
      (n + idx < Pow2(bits) ==> r == n + idx) && (n + idx >= Pow2(bits) ==> r == n + idx - Pow2(bits))
  {
    WrappingAdd(NetworkAddr(bits, c.addr, c.prefix), idx, bits)
  }

  /// `get`: the idx-th address of the block, or nothing once idx reaches
  /// `size()`; a returned address is inside the block and never wrapped.
  function Get(bits: Width, c: Cidr, idx: nat): (r: Option<nat>)
    requires Valid(bits, c) && idx < Pow2(bits)
    ensures r.None? <==> idx >= Size(bits, c.prefix)
    ensures r.Some? ==> r.value == GetUnchecked(bits, c, idx)
    ensures r.Some? ==> r.value == NetworkAddr(bits, c.addr, c.prefix) + idx && Contains(bits, c, r.value)
  {
    if idx >= Size(bits, c.prefix) then None
    else
      IndexInBlock(bits, c, idx);
      Some(GetUnchecked(bits, c, idx))
  }

  lemma IndexInBlock(bits: Width, c: Cidr, idx: nat)
    requires Valid(bits, c) && idx < Size(bits, c.prefix)
    ensures NetworkAddr(bits, c.addr, c.prefix) + idx <= BroadcastAddr(bits, c.addr, c.prefix)
  {
  }

  // ---------------------------------------------------------------------------
  // Properties of the engine

  /// For 1 <= prefix <= bits the mask has exactly the top `prefix` bits set.
  lemma MaskBits(bits: Width, prefix: uint8, i: nat)
    requires 0 < prefix <= bits && i < bits
    ensures Bit(Mask(bits, prefix), i) <==> i >= bits - prefix
  {
    HighMaskBits(bits - prefix, bits, i);
  }

  /// The network address lies at or below the address, the broadcast address
  /// at or above it, and both are in the block.
  lemma NetworkBroadcastBounds(bits: Width, c: Cidr)
    requires Valid(bits, c)
    ensures NetworkAddr(bits, c.addr, c.prefix) <= c.addr <= BroadcastAddr(bits, c.addr, c.prefix)
    ensures Contains(bits, c, NetworkAddr(bits, c.addr, c.prefix))
    ensures Contains(bits, c, BroadcastAddr(bits, c.addr, c.prefix))
    ensures Contains(bits, c, c.addr)
  {
  }

  /// Taking the network address twice changes nothing.
  lemma NetworkIdempotent(bits: Width, addr: nat, prefix: uint8)
    requires addr < Pow2(bits)
    ensures NetworkAddr(bits, NetworkAddr(bits, addr, prefix), prefix) == NetworkAddr(bits, addr, prefix)
  {
    if 0 < prefix <= bits {
      var n := NetworkAddr(bits, addr, prefix);
      RoundDownTwice(addr, n, NetworkAddr(bits, n, prefix), Pow2(bits - prefix));
    }
  }

  /// Two addresses of the same block have the same network address.
  lemma ContainsSameNetwork(bits: Width, c: Cidr, addr: nat)
    requires Valid(bits, c) && addr < Pow2(bits)
    ensures Contains(bits, c, addr) <==> NetworkAddr(bits, addr, c.prefix) == NetworkAddr(bits, c.addr, c.prefix)
  {
    if 0 < c.prefix {
      SameBlock(addr, c.addr, Pow2(bits - c.prefix));
    }
  }

  /// The block holds exactly `size()` addresses for a prefix of at least 1:
  /// its last index reaches the broadcast address.
  lemma SizeSpansBlock(bits: Width, c: Cidr)
    requires Valid(bits, c) && 0 < c.prefix
    ensures NetworkAddr(bits, c.addr, c.prefix) + Size(bits, c.prefix) - 1 == BroadcastAddr(bits, c.addr, c.prefix)
  {
  }

  /// `get` enumerates the block: every address of the block up to network +
  /// size - 1 is returned for exactly one index.
  lemma GetEnumeratesBlock(bits: Width, c: Cidr, addr: nat)
    requires Valid(bits, c) && addr < Pow2(bits)
    requires Contains(bits, c, addr)
    requires addr - NetworkAddr(bits, c.addr, c.prefix) < Size(bits, c.prefix)
    ensures Get(bits, c, addr - NetworkAddr(bits, c.addr, c.prefix)) == Some(addr)
  {
  }

  /// Distinct indices below `size()` give distinct addresses.
  lemma GetInjective(bits: Width, c: Cidr, i: nat, j: nat)
    requires Valid(bits, c) && i < Pow2(bits) && j < Pow2(bits)
    requires Get(bits, c, i).Some? && Get(bits, c, j).Some? && i != j
    ensures Get(bits, c, i) != Get(bits, c, j)
  {
  }

  /// The /0 saturation: `get` never yields the all-ones address, although
  /// `get_unchecked` still reaches it.
  lemma SlashZeroSaturation(bits: Width, c: Cidr)
    requires Valid(bits, c) && c.prefix == 0
    ensures forall idx :: 0 <= idx < Pow2(bits) ==> Get(bits, c, idx) != Some(Pow2(bits) - 1)
    ensures GetUnchecked(bits, c, Pow2(bits) - 1) == Pow2(bits) - 1
  {
  }

  // ---------------------------------------------------------------------------
  // The derived ordering

  datatype Ordering = Less | Equal | Greater

  function CompareNat(x: nat, y: nat): Ordering
  {
    if x < y then Less else if x == y then Equal else Greater
  }

  /// `#[derive(PartialOrd, Ord)]` on `Cidr<A>`: compare the prefixes, then the
  /// addresses (the address types order by their bit patterns).
  function Compare(x: Cidr, y: Cidr): (r: Ordering)
    ensures r == Equal <==> x == y
    ensures r == Less <==> x.prefix < y.prefix || (x.prefix == y.prefix && x.addr < y.addr)
  {
    match CompareNat(x.prefix, y.prefix)
    case Equal => CompareNat(x.addr, y.addr)
    case other => other
  }

  /// The ordering is antisymmetric and transitive.
  lemma CompareIsTotalOrder(x: Cidr, y: Cidr, z: Cidr)
    ensures Compare(x, y) == Less <==> Compare(y, x) == Greater
    ensures Compare(x, y) == Less && Compare(y, z) == Less ==> Compare(x, z) == Less
  {
  }
}
