/// The IPv6 instantiation of the CIDR engine: width 128, `u128` representation.
module V6 {
  import opened Bits
  import opened Wrappers
  import Base
  import Net

  /// `Ipv6Addr::BITS`
  const BITS_LEN: Base.Width := 128

  /// The engine's word range at this width is exactly the `u128` range.
  lemma WordRange()
    ensures Pow2(BITS_LEN) == U128_MODULUS
  {
    Pow2Of128();
  }

  /// `ffff:ffff:ffff:ffff:ffff:ffff:ffff:<last>` as a 128-bit value.
  lemma AllOnesThen(last: uint16)
    ensures Net.Ipv6FromSegments([0xFFFF, 0xFFFF, 0xFFFF, 0xFFFF, 0xFFFF, 0xFFFF, 0xFFFF, last])
      == U128_MODULUS - 0x1_0000 + last
  {
    var s: seq<uint16> := [0xFFFF, 0xFFFF, 0xFFFF, 0xFFFF, 0xFFFF, 0xFFFF, 0xFFFF, last];
    var ones: seq<nat> := seq(7, _ => 0xFFFF);
    assert s[..7] == ones;
    Net.JoinConstant(0xFFFF, 0x1_0000, 7);
    Net.Power65536();
  }

  /// `::` is the all-zero value.
  lemma Unspecified()
    ensures Net.Ipv6FromSegments([0, 0, 0, 0, 0, 0, 0, 0]) == Net.UNSPECIFIED_V6
  {
    var s: seq<uint16> := [0, 0, 0, 0, 0, 0, 0, 0];
    var zeros: seq<nat> := seq(7, _ => 0);
    assert s[..7] == zeros;
    Net.JoinConstant(0, 0x1_0000, 7);
  }

  /// A prefix of 129 is refused, 128 accepted.
  lemma PrefixBound(addr: uint128)
    ensures Pow2(BITS_LEN) == U128_MODULUS
    ensures Base.New(BITS_LEN, addr, 129).None?
    ensures Base.New(BITS_LEN, addr, 128) == Some(Base.Cidr(128, addr))
  {
    WordRange();
  }

  /// `::/0` reports `u128::MAX` addresses; index `u128::MAX` is out of the
  /// block and index `u128::MAX - 1` is `ffff:…:fffe`.
  lemma SlashZero()
    ensures Pow2(BITS_LEN) == U128_MODULUS
    ensures Base.Size(BITS_LEN, 0) == U128_MODULUS - 1
    ensures Base.Get(BITS_LEN, Base.Cidr(0, 0), U128_MODULUS - 1).None?
    ensures Base.Get(BITS_LEN, Base.Cidr(0, 0), U128_MODULUS - 2)
      == Some(Net.Ipv6FromSegments([0xFFFF, 0xFFFF, 0xFFFF, 0xFFFF, 0xFFFF, 0xFFFF, 0xFFFF, 0xFFFE]))
  {
    WordRange();
    AllOnesThen(0xFFFE);
  }

  /// For every prefix from 1 to 128 the block size is 2^(128 - prefix), and
  /// the first and the last address below that size lie in `::/prefix`.
  lemma PrefixSizes(prefix: uint8)
    requires 1 <= prefix <= 128
    ensures Base.Size(BITS_LEN, prefix) == Pow2(128 - prefix)
    ensures Base.Contains(BITS_LEN, Base.Cidr(prefix, 0), 0)
    ensures Base.Size(BITS_LEN, prefix) - 1 < Pow2(BITS_LEN)
    ensures Base.Contains(BITS_LEN, Base.Cidr(prefix, 0), Base.Size(BITS_LEN, prefix) - 1)
  {
    var m := Pow2(128 - prefix);
    SmallMod(m - 1, m);
    SmallMod(0, m);
  }

  /// `ffff:…:fffc/127` has two addresses; `get_unchecked` reaches the
  /// all-ones address at index 3 and wraps to `::` at index 4.
  lemma WrapAround()
    ensures Pow2(BITS_LEN) == U128_MODULUS
    ensures var c := Base.Cidr(127, Net.Ipv6FromSegments([0xFFFF, 0xFFFF, 0xFFFF, 0xFFFF, 0xFFFF, 0xFFFF, 0xFFFF, 0xFFFC]));
      && Base.Size(BITS_LEN, 127) == 2
      && Base.GetUnchecked(BITS_LEN, c, 0) == Net.Ipv6FromSegments([0xFFFF, 0xFFFF, 0xFFFF, 0xFFFF, 0xFFFF, 0xFFFF, 0xFFFF, 0xFFFC])
      && Base.GetUnchecked(BITS_LEN, c, 1) == Net.Ipv6FromSegments([0xFFFF, 0xFFFF, 0xFFFF, 0xFFFF, 0xFFFF, 0xFFFF, 0xFFFF, 0xFFFD])
      && Base.GetUnchecked(BITS_LEN, c, 2) == Net.Ipv6FromSegments([0xFFFF, 0xFFFF, 0xFFFF, 0xFFFF, 0xFFFF, 0xFFFF, 0xFFFF, 0xFFFE])
      && Base.GetUnchecked(BITS_LEN, c, 3) == Net.Ipv6FromSegments([0xFFFF, 0xFFFF, 0xFFFF, 0xFFFF, 0xFFFF, 0xFFFF, 0xFFFF, 0xFFFF])
      && Base.GetUnchecked(BITS_LEN, c, 4) == Net.Ipv6FromSegments([0, 0, 0, 0, 0, 0, 0, 0])
  {
    WordRange();
    LastPairNetwork();
    AllOnesThen(0xFFFD);
    AllOnesThen(0xFFFE);
    AllOnesThen(0xFFFF);
    Unspecified();
  }

  lemma LastPairNetwork()
    ensures Pow2(BITS_LEN) == U128_MODULUS
    ensures Net.Ipv6FromSegments([0xFFFF, 0xFFFF, 0xFFFF, 0xFFFF, 0xFFFF, 0xFFFF, 0xFFFF, 0xFFFC]) == U128_MODULUS - 4
    ensures Base.NetworkAddr(BITS_LEN, U128_MODULUS - 4, 127) == U128_MODULUS - 4
    ensures Base.Size(BITS_LEN, 127) == 2
  {
    WordRange();
    AllOnesThen(0xFFFC);
    assert Pow2(1) == 2;
    var a := U128_MODULUS - 4;
    DivModUnique(a, 2, a / 2, 0);
    assert a % Pow2(128 - 127) == 0;
  }
}
