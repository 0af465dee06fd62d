/// Textual forms of addresses, used as the reference the parser is checked
/// against: dotted-decimal IPv4, colon-separated hexadecimal IPv6 (full, or
/// with one `::` standing for a run of zero groups), and the `/prefix` suffix.
module AddressText {
  import opened Bits
  import Radix
  import opened ParserSpec

  /// The numeral radix and the component separator of a family.
  function RadixOf(fam: FamilyType): (r: nat)
    requires fam != Unknown
    ensures Radix.IsRadix(r)
  {
    if fam == V4 then 10 else 16
  }

  function SepOf(fam: FamilyType): (r: uint8)
    requires fam != Unknown
    ensures r == DOT || r == COLON
  {
    if fam == V4 then DOT else COLON
  }

  /// One component in its shortest form.
  function Numeral(x: nat, fam: FamilyType): (s: seq<uint8>)
    requires fam != Unknown
    ensures |s| > 0
    ensures forall k :: 0 <= k < |s| ==> Radix.IsHexDigit(s[k])
  {
    Radix.ToDigits(x, RadixOf(fam))
  }

  /// Components written one after another with the family's separator.
  function Joined(xs: seq<uint16>, fam: FamilyType): (s: seq<uint8>)
    requires fam != Unknown && |xs| > 0
    ensures |s| > 0
    decreases |xs|
  {
    if |xs| == 1 then Numeral(xs[0], fam)
    else Numeral(xs[0], fam) + [SepOf(fam)] + Joined(xs[1..], fam)
  }

  /// `a.b.c.d`
  function FormatV4(a: uint8, b: uint8, c: uint8, d: uint8): (s: seq<uint8>)
  {
    Joined([a, b, c, d], V4)
  }

  /// `s0:s1:…:s7`
  function FormatV6(segments: seq<uint16>): (s: seq<uint8>)
    requires |segments| == 8
  {
    Joined(segments, V6)
  }

  /// `head::tail`, where either side may be empty.
  function FormatV6Compressed(head: seq<uint16>, tail: seq<uint16>): (s: seq<uint8>)
  {
    (if head == [] then [] else Joined(head, V6)) + [COLON, COLON] + (if tail == [] then [] else Joined(tail, V6))
  }

  /// `address/prefix`
  function WithPrefix(address: seq<uint8>, prefix: uint8): (s: seq<uint8>)
  {
    address + [SLASH] + Radix.ToDigits(prefix, 10)
  }

  /// The bytes of an ASCII string literal.
  function Ascii(s: string): (r: seq<uint8>)
    requires forall k :: 0 <= k < |s| ==> s[k] as int < 0x80
    ensures |r| == |s| && forall k :: 0 <= k < |s| ==> r[k] == s[k] as int
  {
    seq(|s|, k requires 0 <= k < |s| => s[k] as int)
  }
}
