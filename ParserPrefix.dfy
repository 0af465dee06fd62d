/// The `/prefix` suffix: the parser reads the address up to the first `/`
/// exactly as it would read the address alone, then reads the prefix.
module ParserPrefix {
  import opened Bits
  import opened Wrappers
  import Net
  import Radix
  import opened ParserSpec
  import opened AddressText
  import opened ParserProperties
  import opened ParserZeroRun
  import ParserErrors

  /// No byte of `s` is a `/`.
  predicate NoSlash(s: seq<uint8>)
  {
    forall k :: 0 <= k < |s| ==> s[k] != SLASH
  }

  /// What the bytes after the `/` make of an address that was read: the
  /// prefix, or why there is none. Its limit is the family's bit length;
  /// a leading `+` and leading zeros are accepted, any other byte is not.
  function CidrSuffix(ip: Net.IpAddr, rest: seq<uint8>): (r: Result<uint8, ParseError>)
    ensures r.Ok? ==> r.value <= (if ip.V4? then 32 else 128)
    ensures rest == [] ==> r == Err(MissingCidr)
    ensures rest != [] ==> (r == Err(InvalidCidr(rest)) <==> !Radix.Accepts(rest, 10, 0xFF))
    ensures Radix.Accepts(rest, 10, 0xFF) ==>
      var v := Radix.Value(Radix.Unsigned(rest), 10);
      r == if ip.V4? && v > 32 then Err(Ipv4CidrPrefixOverflow(v))
           else if ip.V6? && v > 128 then Err(Ipv6CidrPrefixOverflow(v))
           else Ok(v)
  {
    if rest == [] then Err(MissingCidr)
    else match Radix.FromStrRadix(rest, 10, 0xFF)
      case None => Err(InvalidCidr(rest))
      case Some(prefix) =>
        if ip.V4? then (if prefix > 32 then Err(Ipv4CidrPrefixOverflow(prefix)) else Ok(prefix))
        else (if prefix > 128 then Err(Ipv6CidrPrefixOverflow(prefix)) else Ok(prefix))
  }

  /// The result for `address/rest` given the result for `address` alone.
  function WithSuffix(r: Result<Parsed, ParseError>, rest: seq<uint8>): (s: Result<Parsed, ParseError>)
  {
    if r.Err? then r
    else match CidrSuffix(r.value.0, rest)
      case Ok(prefix) => Ok((r.value.0, Some(prefix)))
      case Err(e) => Err(e)
  }

  // ---------------------------------------------------------------------------
  // Locality: the events before the `/` only look at the bytes before it

  lemma ExtractLocal(a: seq<uint8>, text: seq<uint8>, f: Fields, pos: nat)
    requires |a| <= |text| && text[..|a|] == a && Inv(f, a) && pos <= |a|
    ensures Inv(f, text)
    ensures ExtractComponent(f, a, pos) == ExtractComponent(f, text, pos)
  {
    if f.startDigitPosition <= pos {
      assert a[f.startDigitPosition..pos] == text[f.startDigitPosition..pos];
    }
  }

  lemma OnIpEndLocal(a: seq<uint8>, text: seq<uint8>, f: Fields)
    requires |a| <= |text| && text[..|a|] == a && Inv(f, a)
    ensures Inv(f, text)
    ensures OnIpEnd(f, a, |a|).1 == OnIpEnd(f, text, |a|).1
  {
    ExtractLocal(a, text, f, |a|);
  }

  lemma OnV4SepLocal(a: seq<uint8>, text: seq<uint8>, f: Fields, i: nat)
    requires |a| <= |text| && text[..|a|] == a && Inv(f, a) && i < |a|
    ensures Inv(f, text)
    ensures OnV4Sep(f, a, i) == OnV4Sep(f, text, i)
  {
    ExtractLocal(a, text, f, i);
    if f.family == Unknown {
      ExtractLocal(a, text, f.(family := V4), i);
    }
  }

  lemma OnV6SepLocal(a: seq<uint8>, text: seq<uint8>, f: Fields, i: nat)
    requires |a| <= |text| && text[..|a|] == a && Inv(f, a) && i < |a|
    ensures Inv(f, text)
    ensures OnV6Sep(f, a, i) == OnV6Sep(f, text, i)
  {
    ExtractLocal(a, text, f, i);
    if f.family == Unknown {
      ExtractLocal(a, text, f.(family := V6), i);
    }
  }

  /// A byte other than `/` before the end of `a` does the same in `a` and
  /// in any longer text that starts with `a`.
  lemma StepLocal(a: seq<uint8>, text: seq<uint8>, f: Fields, i: nat)
    requires |a| <= |text| && text[..|a|] == a && Inv(f, a) && i < |a| && a[i] != SLASH
    ensures Inv(f, text)
    ensures Step(a, f, i) == Step(text, f, i)
    ensures Step(a, f, i).Stop? ==> Step(a, f, i).result.Err?
  {
    assert text[i] == a[i];
    OnV4SepLocal(a, text, f, i);
    OnV6SepLocal(a, text, f, i);
  }

  /// The prefix after a `/` at the end of `a` is `CidrSuffix` of the bytes
  /// after it, once the address was read with family `g.family`.
  lemma CidrSepSuffix(g: Fields, a: seq<uint8>, rest: seq<uint8>, ip: Net.IpAddr)
    requires g.family != Unknown && (ip.V4? <==> g.family == V4)
    ensures OnCidrSep(g, a + [SLASH] + rest, |a|) == CidrSuffix(ip, rest)
  {
    var text := a + [SLASH] + rest;
    if |a| + 1 < |text| {
      assert text[|a| + 1..] == rest;
    }
  }

  /// The `/` right after the address: the address is ended, then the prefix
  /// is read from the bytes after the `/`.
  lemma StepSlash(a: seq<uint8>, rest: seq<uint8>, f: Fields)
    requires Inv(f, a)
    ensures Inv(f, a + [SLASH] + rest)
    ensures Step(a + [SLASH] + rest, f, |a|) == Stop(WithSuffix(Finish(a, f), rest))
  {
    var text := a + [SLASH] + rest;
    SlashText(a, rest);
    OnIpEndLocal(a, text, f);
    var (g, ip) := OnIpEnd(f, text, |a|);
    if ip.Ok? {
      CidrSepSuffix(g, a, rest, ip.value);
    }
    SlashStop(text, f, |a|);
  }

  /// A `/` ends the address and, when it was read, reads the prefix.
  lemma SlashStop(text: seq<uint8>, f: Fields, idx: nat)
    requires Inv(f, text) && idx < |text| && text[idx] == SLASH
    ensures var (g, ip) := OnIpEnd(f, text, idx);
      Step(text, f, idx)
        == if ip.Err? then Stop(Err(ip.error))
           else match OnCidrSep(g, text, idx)
             case Ok(prefix) => Stop(Ok((ip.value, Some(prefix))))
             case Err(e) => Stop(Err(e))
  {
  }

  lemma SlashText(a: seq<uint8>, rest: seq<uint8>)
    ensures |a + [SLASH] + rest| == |a| + 1 + |rest|
    ensures (a + [SLASH] + rest)[..|a|] == a && (a + [SLASH] + rest)[|a|] == SLASH
  {
    assert (a + [SLASH] + rest)[..|a|] == a;
  }

  /// From any position in the address on, the run over `address/rest` is the
  /// run over the address alone, followed by the prefix.
  lemma {:induction false} RunPrefix(a: seq<uint8>, rest: seq<uint8>, f: Fields, i: nat)
    requires NoSlash(a) && Inv(f, a) && i <= |a|
    ensures Inv(f, a + [SLASH] + rest)
    ensures Run(a + [SLASH] + rest, f, i) == WithSuffix(Run(a, f, i), rest)
    decreases |a| - i
  {
    var text := a + [SLASH] + rest;
    assert text[..|a|] == a;
    if i == |a| {
      StepSlash(a, rest, f);
      RunAtEnd(a, f);
    } else {
      StepLocal(a, text, f, i);
      match Step(a, f, i)
      case Continue(g) =>
        RunPrefix(a, rest, g, i + 1);
        RunStep(a, f, i, g, i + 1);
        RunStep(text, f, i, g, i + 1);
      case Stop(r) =>
    }
  }

  /// `address/rest` parses as `address` does, then takes its prefix from
  /// `rest`: errors in the address come first, an empty `rest` is a missing
  /// prefix, and the prefix is bounded by the family's bit length.
  lemma PrefixSplit(a: seq<uint8>, rest: seq<uint8>)
    requires NoSlash(a)
    ensures Parse(a + [SLASH] + rest) == WithSuffix(Parse(a), rest)
  {
    StartInv(a);
    RunPrefix(a, rest, Start, 0);
  }

  /// Without a `/`, a successful parse has no prefix.
  lemma {:induction false} RunNoSlash(text: seq<uint8>, f: Fields, i: nat)
    requires Inv(f, text) && i <= |text|
    requires forall k :: i <= k < |text| ==> text[k] != SLASH
    ensures Run(text, f, i).Ok? ==> Run(text, f, i).value.1.None?
    decreases |text| - i
  {
    if i < |text| {
      match Step(text, f, i)
      case Continue(g) =>
        RunNoSlash(text, g, i + 1);
        RunStep(text, f, i, g, i + 1);
      case Stop(r) =>
    }
  }

  lemma NoSlashNoPrefix(text: seq<uint8>)
    requires NoSlash(text)
    ensures Parse(text).Ok? ==> Parse(text).value.1.None?
  {
    StartInv(text);
    RunNoSlash(text, Start, 0);
  }

  // ---------------------------------------------------------------------------
  // Formatted addresses with a prefix

  lemma NumeralNoSlash(x: nat, fam: FamilyType)
    requires fam != Unknown
    ensures NoSlash(Numeral(x, fam))
  {
  }

  lemma {:induction false} JoinedNoSlash(xs: seq<uint16>, fam: FamilyType)
    requires fam != Unknown && |xs| > 0
    ensures NoSlash(Joined(xs, fam))
    decreases |xs|
  {
    NumeralNoSlash(xs[0], fam);
    if |xs| > 1 {
      JoinedNoSlash(xs[1..], fam);
      var n := Numeral(xs[0], fam) + [SepOf(fam)];
      assert forall k :: |n| <= k < |Joined(xs, fam)| ==> Joined(xs, fam)[k] == Joined(xs[1..], fam)[k - |n|];
    }
  }

  lemma CompressedNoSlash(head: seq<uint16>, tail: seq<uint16>)
    ensures NoSlash(FormatV6Compressed(head, tail))
  {
    if head != [] { JoinedNoSlash(head, V6); }
    if tail != [] { JoinedNoSlash(tail, V6); }
    var h := HeadText(head) + [COLON, COLON];
    assert FormatV6Compressed(head, tail) == h + TailText(tail);
    assert forall k :: |h| <= k < |FormatV6Compressed(head, tail)| ==> FormatV6Compressed(head, tail)[k] == TailText(tail)[k - |h|];
  }

  /// The prefix of a read address, written in decimal.
  lemma SuffixFormatted(ip: Net.IpAddr, prefix: uint8)
    ensures CidrSuffix(ip, Radix.ToDigits(prefix, 10))
      == if ip.V4? && prefix > 32 then Err(Ipv4CidrPrefixOverflow(prefix))
         else if ip.V6? && prefix > 128 then Err(Ipv6CidrPrefixOverflow(prefix))
         else Ok(prefix)
  {
    Radix.ParseFormatted(prefix, 10, 0xFF);
  }

  /// `a.b.c.d/p` parses to the address and p, or reports a prefix above 32.
  lemma Ipv4PrefixRoundTrip(a: uint8, b: uint8, c: uint8, d: uint8, prefix: uint8)
    ensures Parse(WithPrefix(FormatV4(a, b, c, d), prefix))
      == if prefix > 32 then Err(Ipv4CidrPrefixOverflow(prefix))
         else Ok((Net.V4(Net.Ipv4FromOctets(a, b, c, d)), Some(prefix)))
  {
    JoinedNoSlash([a, b, c, d], V4);
    PrefixSplit(FormatV4(a, b, c, d), Radix.ToDigits(prefix, 10));
    Ipv4RoundTrip(a, b, c, d);
    SuffixFormatted(Net.V4(Net.Ipv4FromOctets(a, b, c, d)), prefix);
  }

  /// `s0:…:s7/p` parses to the address and p, or reports a prefix above 128.
  lemma Ipv6PrefixRoundTrip(segments: seq<uint16>, prefix: uint8)
    requires |segments| == 8
    ensures Parse(WithPrefix(FormatV6(segments), prefix))
      == if prefix > 128 then Err(Ipv6CidrPrefixOverflow(prefix))
         else Ok((Net.V6(Net.Ipv6FromSegments(segments)), Some(prefix)))
  {
    JoinedNoSlash(segments, V6);
    PrefixSplit(FormatV6(segments), Radix.ToDigits(prefix, 10));
    Ipv6RoundTrip(segments);
    SuffixFormatted(Net.V6(Net.Ipv6FromSegments(segments)), prefix);
  }

  /// `head::tail/p` parses to the expanded address and p, or reports a prefix
  /// above 128.
  lemma Ipv6CompressedPrefixRoundTrip(head: seq<uint16>, tail: seq<uint16>, prefix: uint8)
    requires |head| + |tail| <= 8
    ensures Parse(WithPrefix(FormatV6Compressed(head, tail), prefix))
      == if prefix > 128 then Err(Ipv6CidrPrefixOverflow(prefix))
         else Ok((Net.V6(Net.Ipv6FromSegments(Expanded(head, tail))), Some(prefix)))
  {
    CompressedNoSlash(head, tail);
    PrefixSplit(FormatV6Compressed(head, tail), Radix.ToDigits(prefix, 10));
    Ipv6CompressedRoundTrip(head, tail);
    SuffixFormatted(Net.V6(Net.Ipv6FromSegments(Expanded(head, tail))), prefix);
  }

  /// Digits with no separator, then a `/`: the address is refused before the
  /// prefix is looked at.
  lemma DigitsOnlyThenPrefix(a: seq<uint8>, rest: seq<uint8>)
    requires |a| > 0 && forall k :: 0 <= k < |a| ==> Radix.IsHexDigit(a[k])
    ensures Parse(a + [SLASH] + rest) == Err(InvalidIp)
  {
    PrefixSplit(a, rest);
    ParserErrors.DigitsOnly(a);
  }

  /// `a.b.c.d/rest` is the address with whatever prefix `rest` makes.
  lemma Ipv4Suffix(a: uint8, b: uint8, c: uint8, d: uint8, rest: seq<uint8>)
    ensures Parse(FormatV4(a, b, c, d) + [SLASH] + rest)
      == match CidrSuffix(Net.V4(Net.Ipv4FromOctets(a, b, c, d)), rest)
         case Ok(p) => Ok((Net.V4(Net.Ipv4FromOctets(a, b, c, d)), Some(p)))
         case Err(e) => Err(e)
  {
    JoinedNoSlash([a, b, c, d], V4);
    PrefixSplit(FormatV4(a, b, c, d), rest);
    Ipv4RoundTrip(a, b, c, d);
  }

  /// `a.b.c.d/24x`: trailing bytes after the prefix make it invalid, and the
  /// error carries all the bytes after the `/`.
  lemma Ipv4PrefixTrailingByte(a: uint8, b: uint8, c: uint8, d: uint8)
    ensures Parse(FormatV4(a, b, c, d) + [SLASH, 0x32, 0x34, 0x78]) == Err(InvalidCidr([0x32, 0x34, 0x78]))
  {
    var rest: seq<uint8> := [0x32, 0x34, 0x78];
    assert FormatV4(a, b, c, d) + [SLASH, 0x32, 0x34, 0x78] == FormatV4(a, b, c, d) + [SLASH] + rest;
    assert Radix.Unsigned(rest) == rest;
    assert Radix.DigitValue(rest[2], 10).None?;
    Ipv4Suffix(a, b, c, d, rest);
  }

  /// `a.b.c.d/+024`: a leading `+` and leading zeros are accepted, and the
  /// prefix is 24.
  lemma Ipv4PrefixSignAndZeros(a: uint8, b: uint8, c: uint8, d: uint8)
    ensures Parse(FormatV4(a, b, c, d) + [SLASH, Radix.PLUS, 0x30, 0x32, 0x34])
      == Ok((Net.V4(Net.Ipv4FromOctets(a, b, c, d)), Some(24)))
  {
    var rest: seq<uint8> := [Radix.PLUS, 0x30, 0x32, 0x34];
    assert FormatV4(a, b, c, d) + [SLASH, Radix.PLUS, 0x30, 0x32, 0x34] == FormatV4(a, b, c, d) + [SLASH] + rest;
    var digits := Radix.Unsigned(rest);
    assert digits == [0x30, 0x32, 0x34];
    var zero: seq<uint8> := [0x30];
    var two: seq<uint8> := [0x30, 0x32];
    assert zero[..0] == [] && Radix.Value(zero, 10) == 0;
    assert two[..1] == zero && Radix.Value(two, 10) == 2;
    assert digits[..2] == two && Radix.Value(digits, 10) == 24;
    Ipv4Suffix(a, b, c, d, rest);
  }

  /// An address followed by a bare `/` misses its prefix.
  lemma MissingPrefix(a: seq<uint8>)
    requires NoSlash(a) && Parse(a).Ok?
    ensures Parse(a + [SLASH]) == Err(MissingCidr)
  {
    PrefixSplit(a, []);
    assert a + [SLASH] + [] == a + [SLASH];
  }
}
