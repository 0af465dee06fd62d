/// The single-pass text parser: a `Parser` object whose fields the `on_*`
/// handlers update byte by byte, and `parse_ip`, which runs it. Every method
/// is proved to move the fields exactly as the matching function of
/// `ParserSpec` does.
module IpParser {
  import opened Bits
  import opened Wrappers
  import Net
  import Radix
  import opened ParserSpec

  /// `ptr::copy` on the component buffer as a value: `count` elements from
  /// `src` land at `dst` (the ranges may overlap), the rest is unchanged.
  function Moved(a: seq<uint16>, src: nat, dst: nat, count: nat): (r: seq<uint16>)
    requires src + count <= |a| && dst + count <= |a|
    ensures |r| == |a|
  {
    seq(|a|, i requires 0 <= i < |a| => if dst <= i < dst + count then a[i - dst + src] else a[i])
  }

  /// `ptr::write_bytes(…, 0, len)` on the component buffer as a value.
  function Zeroed(a: seq<uint16>, start: nat, len: nat): (r: seq<uint16>)
    requires start + len <= |a|
    ensures |r| == |a|
  {
    seq(|a|, i requires 0 <= i < |a| => if start <= i < start + len then 0 else a[i])
  }

  /// Shifting the tail behind the `::` right by the number of missing
  /// components and zero-filling the gap lays the buffer out as `Splice`.
  lemma MoveThenZeroIsSplice(c: seq<uint16>, z: nat, n: nat)
    requires |c| == 8 && z <= n < 8
    ensures Zeroed(Moved(c, z, z + (8 - n), n - z), z, 8 - n) == Splice(c, z, n)
  {
    var r := Zeroed(Moved(c, z, z + (8 - n), n - z), z, 8 - n);
    var s := Splice(c, z, n);
    forall i | 0 <= i < 8
      ensures r[i] == s[i]
    {
      if i < z {
        assert s[i] == c[i];
      } else if i < z + 8 - n {
        assert s[i] == 0;
      } else {
        assert s[i] == c[i - (8 - n)];
      }
    }
  }

  class Parser {
    var state: ParserState
    var family: FamilyType
    var zeroSkip: bool
    var sepInitial: bool
    var componentsSize: uint8
    const components: array<uint16>
    var zeroComponentStart: uint8
    var startDigitPosition: nat
    const text: seq<uint8>

    /// The fields as a value.
    function Snapshot(): Fields
      reads this, components
    {
      Fields(state, family, zeroSkip, sepInitial, componentsSize, components[..], zeroComponentStart, startDigitPosition)
    }

    predicate Valid()
      reads this, components
    {
      components.Length == 8 && Inv(Snapshot(), text)
    }

    /// The parser as `parse_ip` sets it up over `text`.
    constructor (text: seq<uint8>)
      ensures Valid() && Snapshot() == Start && this.text == text
      ensures fresh(components)
    {
      state := Initial;
      family := Unknown;
      zeroSkip := false;
      sepInitial := false;
      componentsSize := 0;
      components := new uint16[8](_ => 0);
      zeroComponentStart := 0;
      startDigitPosition := 0;
      this.text := text;
      new;
      assert components[..] == [0, 0, 0, 0, 0, 0, 0, 0];
    }

    /// `extract_component`
    method ExtractComponent(pos: nat) returns (r: Option<ParseError>)
      requires Valid() && pos <= |text|
      modifies this, components
      ensures Valid()
      ensures (Snapshot(), r) == ParserSpec.ExtractComponent(old(Snapshot()), text, pos)
    {
      var digits := Slice(text, startDigitPosition, pos);
      var parsed: Option<nat>;
      match family {
        case V4 =>
          if componentsSize >= IPV4_LEN {
            return Some(Ipv4InvalidComponentSize(SaturatingInc(componentsSize)));
          }
          parsed := Radix.FromStrRadix(digits, 10, 0xFFFF);
        case V6 =>
          if componentsSize >= IPV6_LEN {
            return Some(Ipv6InvalidComponentSize(SaturatingInc(componentsSize)));
          }
          parsed := Radix.FromStrRadix(digits, 16, 0xFFFF);
        case Unknown =>
          return None;
      }
      match parsed {
        case Some(component) =>
          components[componentsSize] := component;
          componentsSize := componentsSize + 1;
          startDigitPosition := 0;
          r := None;
        case None =>
          r := Some(InvalidComponent(digits));
      }
    }

    /// `ptr::copy` within the component buffer, as a memmove.
    method CopyComponents(src: nat, dst: nat, count: nat)
      requires components.Length == 8 && src + count <= 8 && dst + count <= 8
      modifies components
      ensures components[..] == Moved(old(components[..]), src, dst, count)
    {
      ghost var a := components[..];
      if dst <= src {
        var k := 0;
        while k < count
          invariant 0 <= k <= count
          invariant forall i :: 0 <= i < 8 && dst <= i < dst + k ==> components[i] == a[i - dst + src]
          invariant forall i :: 0 <= i < 8 && !(dst <= i < dst + k) ==> components[i] == a[i]
        {
          components[dst + k] := components[src + k];
          k := k + 1;
        }
      } else {
        var k := count;
        while k > 0
          invariant 0 <= k <= count
          invariant forall i :: 0 <= i < 8 && dst + k <= i < dst + count ==> components[i] == a[i - dst + src]
          invariant forall i :: 0 <= i < 8 && !(dst + k <= i < dst + count) ==> components[i] == a[i]
        {
          k := k - 1;
          components[dst + k] := components[src + k];
        }
      }
    }

    /// `ptr::write_bytes(…, 0, len)` within the component buffer.
    method ZeroComponents(start: nat, len: nat)
      requires components.Length == 8 && start + len <= 8
      modifies components
      ensures components[..] == Zeroed(old(components[..]), start, len)
    {
      ghost var a := components[..];
      var k := 0;
      while k < len
        invariant 0 <= k <= len
        invariant forall i :: 0 <= i < 8 && start <= i < start + k ==> components[i] == 0
        invariant forall i :: 0 <= i < 8 && !(start <= i < start + k) ==> components[i] == a[i]
      {
        components[start + k] := 0;
        k := k + 1;
      }
    }

    /// The zero run of a `::`: the groups after it move to the end of the
    /// buffer and the gap they leave is zeroed.
    method SpliceZeroRun()
      requires Valid() && componentsSize < IPV6_LEN
      modifies components
      ensures Valid()
      ensures components[..] == Splice(old(components[..]), zeroComponentStart, componentsSize)
    {
      var zeroLen := SaturatingSub(IPV6_LEN, componentsSize);
      ghost var c := components[..];
      CopyComponents(zeroComponentStart, zeroComponentStart + zeroLen, componentsSize - zeroComponentStart);
      ZeroComponents(zeroComponentStart, zeroLen);
      MoveThenZeroIsSplice(c, zeroComponentStart, componentsSize);
    }

    /// `read_ip`
    method ReadIp() returns (r: Result<Net.IpAddr, ParseError>)
      requires Valid()
      modifies components
      ensures Valid()
      ensures (Snapshot(), r) == ParserSpec.ReadIp(old(Snapshot()), text)
    {
      match family {
        case V4 =>
          r := ReadIpV4();
        case V6 =>
          r := ReadIpV6();
        case Unknown =>
          r := Err(if state == Initial then MissingIp else InvalidIp);
      }
    }

    /// The IPv4 arm of `read_ip`: four components, each at most 255.
    method ReadIpV4() returns (r: Result<Net.IpAddr, ParseError>)
      requires Valid() && family == V4
      ensures (Snapshot(), r) == ParserSpec.ReadIp(Snapshot(), text)
    {
      if componentsSize == IPV4_LEN {
        if components[0] > 255 { return Err(Ipv4ComponentOverflow(components[0])); }
        if components[1] > 255 { return Err(Ipv4ComponentOverflow(components[1])); }
        if components[2] > 255 { return Err(Ipv4ComponentOverflow(components[2])); }
        if components[3] > 255 { return Err(Ipv4ComponentOverflow(components[3])); }
        r := Ok(Net.V4(Net.Ipv4FromOctets(components[0], components[1], components[2], components[3])));
      } else {
        r := Err(Ipv4InvalidComponentSize(componentsSize));
      }
    }

    /// The IPv6 arm of `read_ip`: eight groups, or fewer around a `::` whose
    /// run of zeros is spliced in place.
    method ReadIpV6() returns (r: Result<Net.IpAddr, ParseError>)
      requires Valid() && family == V6
      modifies components
      ensures Valid()
      ensures (Snapshot(), r) == ParserSpec.ReadIp(old(Snapshot()), text)
    {
      if componentsSize > IPV6_LEN {
        return Err(InvalidIpv6);
      }
      if componentsSize < IPV6_LEN {
        if zeroSkip {
          SpliceZeroRun();
        } else {
          return Err(Ipv6InvalidComponentSize(componentsSize));
        }
      }
      r := Ok(Net.V6(Net.Ipv6FromSegments(components[..])));
    }

    /// `on_digit`
    method OnDigit(pos: nat) returns (r: Option<ParseError>)
      requires Valid() && pos < |text|
      modifies this
      ensures Valid()
      ensures (Snapshot(), r) == ParserSpec.OnDigit(old(Snapshot()), text, pos)
    {
      if state == Digit {
        r := None;
      } else if state == V6Sep && sepInitial {
        r := Some(InvalidIpv6);
      } else {
        state := Digit;
        startDigitPosition := pos;
        r := None;
      }
    }

    /// `on_v4_sep`
    method OnV4Sep(pos: nat) returns (r: Option<ParseError>)
      requires Valid() && pos <= |text|
      modifies this, components
      ensures Valid()
      ensures (Snapshot(), r) == ParserSpec.OnV4Sep(old(Snapshot()), text, pos)
    {
      match state {
        case Digit =>
          match family {
            case V6 =>
              return Some(InvalidIpv6);
            case Unknown =>
              family := V4;
              r := ExtractComponent(pos);
            case V4 =>
              r := ExtractComponent(pos);
          }
        case V4Sep =>
          r := Some(InvalidIpv4);
        case V6Sep =>
          r := Some(InvalidIpv4);
        case Initial =>
          r := Some(InvalidIpv4);
      }
      state := V4Sep;
    }

    /// `on_v6_sep`
    method OnV6Sep(pos: nat) returns (r: Option<ParseError>)
      requires Valid() && pos <= |text|
      modifies this, components
      ensures Valid()
      ensures (Snapshot(), r) == ParserSpec.OnV6Sep(old(Snapshot()), text, pos)
    {
      match state {
        case Digit =>
          match family {
            case V4 =>
              return Some(InvalidIpv4);
            case Unknown =>
              family := V6;
              r := ExtractComponent(pos);
            case V6 =>
              r := ExtractComponent(pos);
          }
        case V6Sep =>
          if zeroSkip {
            return Some(Ipv6MultipleZeroAbbrv);
          } else {
            sepInitial := false;
            zeroSkip := true;
            zeroComponentStart := componentsSize;
            family := V6;
            return None;
          }
        case Initial =>
          sepInitial := true;
          r := None;
        case V4Sep =>
          r := Some(InvalidIpv4);
      }
      state := V6Sep;
    }

    /// `on_ip_end`
    method OnIpEnd(pos: nat) returns (r: Result<Net.IpAddr, ParseError>)
      requires Valid() && pos <= |text|
      modifies this, components
      ensures Valid()
      ensures (Snapshot(), r) == ParserSpec.OnIpEnd(old(Snapshot()), text, pos)
    {
      match state {
        case Digit =>
          var e := ExtractComponent(pos);
          match e {
            case None => r := ReadIp();
            case Some(error) => r := Err(error);
          }
        case V4Sep =>
          r := Err(InvalidIpv4);
        case V6Sep =>
          if zeroSkip {
            if componentsSize == 0 {
              r := Ok(Net.V6(Net.UNSPECIFIED_V6));
            } else {
              r := ReadIp();
            }
          } else {
            r := Err(InvalidIpv6);
          }
        case Initial =>
          r := Err(MissingIp);
      }
    }

    /// `on_cidr_sep`: reads the rest of the input, changes nothing.
    method OnCidrSep(pos: nat) returns (r: Result<uint8, ParseError>)
      requires Valid() && pos < |text|
      ensures r == ParserSpec.OnCidrSep(Snapshot(), text, pos)
    {
      var digitPos := pos + 1;
      if digitPos >= |text| {
        return Err(MissingCidr);
      }
      var rest := text[digitPos..];
      match Radix.FromStrRadix(rest, 10, 0xFF) {
        case Some(prefix) =>
          match family {
            case V4 =>
              if prefix > 32 { r := Err(Ipv4CidrPrefixOverflow(prefix)); } else { r := Ok(prefix); }
            case V6 =>
              if prefix > 128 { r := Err(Ipv6CidrPrefixOverflow(prefix)); } else { r := Ok(prefix); }
            case Unknown =>
              r := Err(InvalidCidr(rest));
          }
        case None =>
          r := Err(InvalidCidr(rest));
      }
    }

    /// `parse`: feeds the bytes to the handlers one at a time until an error,
    /// a `/` or the end of the input.
    method Parse() returns (r: Result<Parsed, ParseError>)
      requires Valid()
      modifies this, components
      ensures r == Run(text, old(Snapshot()), 0)
    {
      var idx := 0;
      while idx < |text|
        invariant Valid() && idx <= |text|
        invariant Run(text, Snapshot(), idx) == Run(text, old(Snapshot()), 0)
        decreases |text| - idx
      {
        var ch := text[idx];
        if Radix.IsHexDigit(ch) {
          var e := OnDigit(idx);
          if e.Some? { return Err(e.value); }
        } else if ch == DOT {
          var e := OnV4Sep(idx);
          if e.Some? { return Err(e.value); }
        } else if ch == COLON {
          var e := OnV6Sep(idx);
          if e.Some? { return Err(e.value); }
        } else if ch == SLASH {
          var ip := OnIpEnd(idx);
          if ip.Err? { return Err(ip.error); }
          var prefix := OnCidrSep(idx);
          match prefix {
            case Ok(p) => return Ok((ip.value, Some(p)));
            case Err(e) => return Err(e);
          }
        } else if ch < 0x80 {
          return Err(UnexpectedCharacter(ch, idx));
        } else {
          return Err(UnexpectedCharacter(ch, idx));
        }
        idx := idx + 1;
      }
      var ip := OnIpEnd(idx);
      match ip {
        case Ok(addr) => r := Ok((addr, None));
        case Err(e) => r := Err(e);
      }
    }
  }

  /// `parse_ip`: parses `text` (the bytes of the input string) into an
  /// address and an optional prefix, exactly as the state machine specifies.
  method ParseIp(text: seq<uint8>) returns (r: Result<Parsed, ParseError>)
    ensures r == ParserSpec.Parse(text)
  {
    var parser := new Parser(text);
    r := parser.Parse();
  }
}
