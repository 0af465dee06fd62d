/// The IPv4 instantiation of the CIDR engine: width 32, `u32` representation.
module V4 {
  import opened Bits
  import opened Wrappers
  import Base
  import Net

  /// `Ipv4Addr::BITS`
  const BITS_LEN: Base.Width := 32

  /// The engine's word range at this width is exactly the `u32` range.
  lemma WordRange()
    ensures Pow2(BITS_LEN) == U32_MODULUS
  {
    Pow2Of32();
  }

  /// A prefix of 33 is refused, 32 accepted.
  lemma PrefixBound(addr: uint32)
    ensures Pow2(BITS_LEN) == U32_MODULUS
    ensures Base.New(BITS_LEN, addr, 33).None?
    ensures Base.New(BITS_LEN, addr, 32) == Some(Base.Cidr(32, addr))
  {
    WordRange();
  }

  /// `0.0.0.0/0` reports `u32::MAX` addresses; index `u32::MAX` is out of the
  /// block and index `u32::MAX - 1` is `255.255.255.254`.
  lemma SlashZero()
    ensures Pow2(BITS_LEN) == U32_MODULUS
    ensures Base.Size(BITS_LEN, 0) == 0xFFFF_FFFF
    ensures Base.Get(BITS_LEN, Base.Cidr(0, 0), 0xFFFF_FFFF).None?
    ensures Base.Get(BITS_LEN, Base.Cidr(0, 0), 0xFFFF_FFFE) == Some(Net.Ipv4FromOctets(255, 255, 255, 254))
  {
    WordRange();
  }

  /// For every prefix from 1 to 32 the block size is 2^(32 - prefix), and every
  /// address below that size lies in `0.0.0.0/prefix`.
  lemma PrefixSizes(prefix: uint8, a: nat)
    requires 1 <= prefix <= 32 && a < Base.Size(BITS_LEN, prefix)
    ensures Base.Size(BITS_LEN, prefix) == Pow2(32 - prefix)
    ensures a < Pow2(BITS_LEN) && Base.Contains(BITS_LEN, Base.Cidr(prefix, 0), a)
  {
    var m := Pow2(32 - prefix);
    SmallMod(a, m);
    SmallMod(0, m);
  }

  /// `255.255.255.30/31` has two addresses and `get_unchecked` runs past them,
  /// wrapping to `0.0.0.0` at index 226.
  lemma WrapAround()
    ensures Pow2(BITS_LEN) == U32_MODULUS
    ensures var c := Base.Cidr(31, Net.Ipv4FromOctets(255, 255, 255, 30));
      && Base.Size(BITS_LEN, 31) == 2
      && Base.GetUnchecked(BITS_LEN, c, 0) == Net.Ipv4FromOctets(255, 255, 255, 30)
      && Base.GetUnchecked(BITS_LEN, c, 1) == Net.Ipv4FromOctets(255, 255, 255, 31)
      && Base.GetUnchecked(BITS_LEN, c, 2) == Net.Ipv4FromOctets(255, 255, 255, 32)
      && Base.GetUnchecked(BITS_LEN, c, 225) == Net.Ipv4FromOctets(255, 255, 255, 255)
      && Base.GetUnchecked(BITS_LEN, c, 226) == Net.Ipv4FromOctets(0, 0, 0, 0)
  {
    WordRange();
    var c := Base.Cidr(31, Net.Ipv4FromOctets(255, 255, 255, 30));
    LastPairNetwork();
    var n := Base.NetworkAddr(BITS_LEN, c.addr, c.prefix);
    assert n == 0xFFFF_FF1E;
    assert Base.GetUnchecked(BITS_LEN, c, 226) == 0;
  }

  lemma LastPairNetwork()
    ensures Pow2(BITS_LEN) == U32_MODULUS
    ensures Net.Ipv4FromOctets(255, 255, 255, 30) == 0xFFFF_FF1E
    ensures Base.NetworkAddr(BITS_LEN, 0xFFFF_FF1E, 31) == 0xFFFF_FF1E
    ensures Base.Size(BITS_LEN, 31) == 2
  {
    WordRange();
    assert Pow2(1) == 2;
  }
}
