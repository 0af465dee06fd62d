/// The address values of `core::net` that the library produces and consumes,
/// held as their bit patterns (`to_bits` / `from_bits`), with the
/// component-wise constructors `Ipv4Addr::new` (four octets) and
/// `Ipv6Addr::new` (eight 16-bit segments) and their inverses.
module Net {
  import opened Bits

  /// `core::net::IpAddr`
  datatype IpAddr = V4(v4: uint32) | V6(v6: uint128)

  /// `Ipv6Addr::UNSPECIFIED` (`::`)
  const UNSPECIFIED_V6: uint128 := 0

  /// base^n
  function Power(base: nat, n: nat): (r: nat)
    requires base > 0
    ensures r > 0
  {
    if n == 0 then 1 else Power(base, n - 1) * base
  }

  /// Big-endian value of a sequence of base-`base` digits (octets, segments).
  function Join(groups: seq<nat>, base: nat): (r: nat)
    requires base > 0
    requires forall i :: 0 <= i < |groups| ==> groups[i] < base
    ensures r < Power(base, |groups|)
  {
    if groups == [] then 0
    else
      var n := |groups|;
      var high := Join(groups[..n - 1], base);
      JoinStep(high, groups[n - 1], base, Power(base, n - 1));
      high * base + groups[n - 1]
  }

  lemma JoinStep(high: nat, low: nat, base: nat, p: nat)
    requires high < p && low < base
    ensures high * base + low < p * base
  {
    assert high * base <= (p - 1) * base by { MulMonotone(high, p - 1, base); }
    assert (p - 1) * base == p * base - base by { MulSubOne(p, base); }
  }

  lemma MulMonotone(x: nat, y: nat, b: nat)
    requires x <= y
    ensures x * b <= y * b
  {
  }

  /// The last n base-`base` digits of x, most significant first.
  function Split(x: nat, base: nat, n: nat): (r: seq<nat>)
    requires base > 0
    ensures |r| == n
    ensures forall i :: 0 <= i < n ==> r[i] < base
    decreases n
  {
    if n == 0 then []
    else
      DivModBasics(x, base);
      Split(x / base, base, n - 1) + [x % base]
  }

  /// Splitting a word into digits and joining them back gives the word.
  lemma {:induction false} JoinSplit(x: nat, base: nat, n: nat)
    requires base > 0 && x < Power(base, n)
    ensures Join(Split(x, base, n), base) == x
    decreases n
  {
    if n > 0 {
      var p := Power(base, n - 1);
      DivModBasics(x, base);
      assert x / base < p by {
        if x / base >= p {
          MulMonotone(p, x / base, base);
        }
      }
      JoinSplit(x / base, base, n - 1);
      var s := Split(x, base, n);
      assert s[..n - 1] == Split(x / base, base, n - 1);
    }
  }

  /// Joining digits and splitting the result gives the digits back.
  lemma {:induction false} SplitJoin(groups: seq<nat>, base: nat)
    requires base > 0
    requires forall i :: 0 <= i < |groups| ==> groups[i] < base
    ensures Split(Join(groups, base), base, |groups|) == groups
  {
    var n := |groups|;
    if n > 0 {
      var high := Join(groups[..n - 1], base);
      var x := Join(groups, base);
      assert x == high * base + groups[n - 1];
      DivModUnique(x, base, high, groups[n - 1]);
      SplitJoin(groups[..n - 1], base);
      assert groups == groups[..n - 1] + [groups[n - 1]];
    }
  }

  /// A run of n maximal digits is the largest n-digit value; a run of zeros is 0.
  lemma {:induction false} JoinConstant(g: nat, base: nat, n: nat)
    requires 0 < base && g < base && (g == 0 || g == base - 1)
    ensures g == 0 ==> Join(seq(n, _ => g), base) == 0
    ensures g == base - 1 ==> Join(seq(n, _ => g), base) == Power(base, n) - 1
  {
    if n > 0 {
      var s := seq(n, _ => g);
      assert s[..n - 1] == seq(n - 1, _ => g);
      JoinConstant(g, base, n - 1);
      if g == base - 1 {
        MulSubOne(Power(base, n - 1), base);
      }
    }
  }

  lemma Power256()
    ensures Power(0x100, 4) == 0x1_0000_0000
  {
    assert Power(0x100, 2) == 0x1_0000;
  }

  lemma Power65536()
    ensures Power(0x1_0000, 7) == 0x1_0000_0000_0000_0000_0000_0000_0000
    ensures Power(0x1_0000, 8) == 0x1_0000_0000_0000_0000_0000_0000_0000_0000
  {
    assert Power(0x1_0000, 2) == 0x1_0000_0000;
    assert Power(0x1_0000, 4) == 0x1_0000_0000_0000_0000;
    assert Power(0x1_0000, 6) == 0x1_0000_0000_0000_0000_0000_0000;
    assert Power(0x1_0000, 7) == 0x1_0000_0000_0000_0000_0000_0000_0000;
  }

  /// `Ipv4Addr::new(a, b, c, d)`
  function Ipv4FromOctets(a: uint8, b: uint8, c: uint8, d: uint8): (r: uint32)
    ensures r == a * 0x100_0000 + b * 0x1_0000 + c * 0x100 + d
  {
    Power256();
    var s: seq<nat> := [a, b, c, d];
    assert [a, b][..1] == [a] && [a][..0] == [];
    assert Join([a], 0x100) == a;
    assert Join([a, b], 0x100) == a * 0x100 + b;
    assert [a, b, c][..2] == [a, b];
    assert Join([a, b, c], 0x100) == (a * 0x100 + b) * 0x100 + c;
    assert s[..3] == [a, b, c];
    Join(s, 0x100)
  }

  /// `Ipv4Addr::octets`
  function Ipv4Octets(x: uint32): (r: seq<uint8>)
    ensures |r| == 4
  {
    var s := Split(x, 0x100, 4);
    [s[0], s[1], s[2], s[3]]
  }

  /// `Ipv6Addr::new` applied to eight segments
  function Ipv6FromSegments(segments: seq<uint16>): (r: uint128)
    requires |segments| == 8
    ensures r == Join(segments[..7], 0x1_0000) * 0x1_0000 + segments[7]
  {
    Power65536();
    Join(segments, 0x1_0000)
  }

  /// `Ipv6Addr::segments`
  function Ipv6Segments(x: uint128): (r: seq<uint16>)
    ensures |r| == 8
  {
    var s := Split(x, 0x1_0000, 8);
    seq(8, i requires 0 <= i < 8 => s[i])
  }

  lemma Ipv4OctetsRoundTrip(a: uint8, b: uint8, c: uint8, d: uint8)
    ensures Ipv4Octets(Ipv4FromOctets(a, b, c, d)) == [a, b, c, d]
  {
    SplitJoin([a, b, c, d], 0x100);
  }

  lemma Ipv4FromOctetsRoundTrip(x: uint32)
    ensures var o := Ipv4Octets(x); Ipv4FromOctets(o[0], o[1], o[2], o[3]) == x
  {
    Power256();
    JoinSplit(x, 0x100, 4);
    assert Split(x, 0x100, 4) == Ipv4Octets(x);
  }

  lemma Ipv6SegmentsRoundTrip(segments: seq<uint16>)
    requires |segments| == 8
    ensures Ipv6Segments(Ipv6FromSegments(segments)) == segments
  {
    SplitJoin(segments, 0x1_0000);
  }

  lemma Ipv6FromSegmentsRoundTrip(x: uint128)
    ensures Ipv6FromSegments(Ipv6Segments(x)) == x
  {
    Power65536();
    JoinSplit(x, 0x1_0000, 8);
    assert Split(x, 0x1_0000, 8) == Ipv6Segments(x);
  }
}
