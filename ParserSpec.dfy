/// The text parser's state machine as functions on a snapshot of the parser's
/// fields: each `On…` function gives the fields after one event and what the
/// event reports, and `Parse` runs the machine over the whole input.
module ParserSpec {
  import opened Bits
  import opened Wrappers
  import Net
  import Radix
  import Ipv4 = V4
  import Ipv6 = V6

  const DOT: uint8 := 0x2E    // '.'
  const COLON: uint8 := 0x3A  // ':'
  const SLASH: uint8 := 0x2F  // '/'

  /// Addresses have 4 (IPv4) or 8 (IPv6) components.
  const IPV4_LEN: uint8 := 4
  const IPV6_LEN: uint8 := 8

  datatype FamilyType = Unknown | V4 | V6

  datatype ParserState = Initial | Digit | V4Sep | V6Sep

  /// `ParseError`. Text payloads are the offending bytes of the input; the
  /// character of `UnexpectedCharacter` is the offending byte.
  datatype ParseError =
    | InvalidComponent(text: seq<uint8>)
    | InvalidCidr(text: seq<uint8>)
    | UnexpectedCharacter(ch: uint8, idx: nat)
    | InvalidIp
    | InvalidIpv4
    | Ipv4InvalidComponentSize(size: uint8)
    | Ipv4ComponentOverflow(component: uint16)
    | InvalidIpv6
    | Ipv6InvalidComponentSize(size: uint8)
    | Ipv6MultipleZeroAbbrv
    | MissingIp
    | MissingCidr
    | Ipv4CidrPrefixOverflow(prefix: uint8)
    | Ipv6CidrPrefixOverflow(prefix: uint8)

  /// The fields of `Parser` other than the input; the two flag bits
  /// `IS_IPV6_ZERO_SKIP` and `IS_IPV6_SEP_INITIAL` are two booleans.
  datatype Fields = Fields(
    state: ParserState,
    family: FamilyType,
    zeroSkip: bool,
    sepInitial: bool,
    componentsSize: uint8,
    components: seq<uint16>,
    zeroComponentStart: uint8,
    startDigitPosition: nat)

  /// The parser as `parse_ip` sets it up.
  const Start := Fields(Initial, Unknown, false, false, 0, [0, 0, 0, 0, 0, 0, 0, 0], 0, 0)

  /// What holds of the fields between events: the component count stays
  /// within the eight-slot buffer (four for IPv4), the `::` position lies
  /// within the collected components, and a `::` implies IPv6.
  predicate Inv(f: Fields, text: seq<uint8>)
  {
    && |f.components| == 8
    && f.componentsSize <= IPV6_LEN
    && f.zeroComponentStart <= f.componentsSize
    && (f.family == V4 ==> f.componentsSize <= IPV4_LEN)
    && (f.family == Unknown ==> f.componentsSize == 0)
    && (f.zeroSkip ==> f.family == V6)
    && f.startDigitPosition <= |text|
  }

  lemma StartInv(text: seq<uint8>)
    ensures Inv(Start, text)
  {
  }

  /// The bytes from `from` up to `to`, empty when `to` is before `from`.
  function Slice(text: seq<uint8>, from: nat, to: nat): (r: seq<uint8>)
    requires from <= |text| && to <= |text|
    ensures from <= to ==> r == text[from..to]
    ensures to < from ==> r == []
  {
    if from <= to then text[from..to] else []
  }

  // ---------------------------------------------------------------------------
  // The events

  /// `extract_component`: parses the digits since `start_digit_position`
  /// as the next component of the committed family and appends it.
  function ExtractComponent(f: Fields, text: seq<uint8>, pos: nat): (r: (Fields, Option<ParseError>))
    requires Inv(f, text) && pos <= |text|
    ensures Inv(r.0, text)
  {
    var digits := Slice(text, f.startDigitPosition, pos);
    match f.family
    case V4 =>
      if f.componentsSize >= IPV4_LEN then (f, Some(Ipv4InvalidComponentSize(SaturatingInc(f.componentsSize))))
      else Store(f, text, Radix.FromStrRadix(digits, 10, 0xFFFF), digits)
    case V6 =>
      if f.componentsSize >= IPV6_LEN then (f, Some(Ipv6InvalidComponentSize(SaturatingInc(f.componentsSize))))
      else Store(f, text, Radix.FromStrRadix(digits, 16, 0xFFFF), digits)
    case Unknown => (f, None)
  }

  /// The outcome of the component parse: store it in the next slot, or report
  /// the digits as an invalid component.
  function Store(f: Fields, text: seq<uint8>, parsed: Option<nat>, digits: seq<uint8>): (r: (Fields, Option<ParseError>))
    requires Inv(f, text) && f.family != Unknown
    requires f.componentsSize < (if f.family == V4 then IPV4_LEN else IPV6_LEN)
    requires parsed.Some? ==> parsed.value <= 0xFFFF
    ensures Inv(r.0, text)
  {
    match parsed
    case Some(component) =>
      (f.(components := f.components[f.componentsSize := component],
          componentsSize := f.componentsSize + 1,
          startDigitPosition := 0), None)
    case None => (f, Some(InvalidComponent(digits)))
  }

  /// The IPv6 zero-run splice: the components before the `::` position `z`,
  /// then `8 - n` zeros, then the components collected after it.
  function Splice(c: seq<uint16>, z: nat, n: nat): (r: seq<uint16>)
    requires |c| == 8 && z <= n <= 8
    ensures |r| == 8
  {
    c[..z] + seq(8 - n, _ => 0) + c[z..n]
  }

  /// `read_octet!`: the first of the four components above 255, if any.
  function OctetOverflow(c: seq<uint16>): (r: Option<uint16>)
    requires |c| >= 4
    ensures r.None? <==> forall i :: 0 <= i < 4 ==> c[i] <= 255
    ensures r.Some? ==> exists i :: 0 <= i < 4 && c[i] == r.value > 255 && forall j :: 0 <= j < i ==> c[j] <= 255
  {
    if c[0] > 255 then Some(c[0])
    else if c[1] > 255 then Some(c[1])
    else if c[2] > 255 then Some(c[2])
    else if c[3] > 255 then Some(c[3])
    else None
  }

  /// `read_ip`: assembles the address from the collected components.
  function ReadIp(f: Fields, text: seq<uint8>): (r: (Fields, Result<Net.IpAddr, ParseError>))
    requires Inv(f, text)
    ensures Inv(r.0, text)
    ensures r.1.Ok? ==> (r.1.value.V4? <==> f.family == V4) && f.family != Unknown
    ensures f.family == Unknown ==> r.1 == Err(if f.state == Initial then MissingIp else InvalidIp)
  {
    match f.family
    case V4 =>
      if f.componentsSize == IPV4_LEN then
        match OctetOverflow(f.components)
        case Some(octet) => (f, Err(Ipv4ComponentOverflow(octet)))
        case None =>
          var c := f.components;
          (f, Ok(Net.V4(Net.Ipv4FromOctets(c[0], c[1], c[2], c[3]))))
      else (f, Err(Ipv4InvalidComponentSize(f.componentsSize)))
    case V6 =>
      if f.componentsSize > IPV6_LEN then (f, Err(InvalidIpv6))
      else if f.componentsSize < IPV6_LEN && !f.zeroSkip then (f, Err(Ipv6InvalidComponentSize(f.componentsSize)))
      else
        var g := if f.componentsSize < IPV6_LEN
          then f.(components := Splice(f.components, f.zeroComponentStart, f.componentsSize))
          else f;
        (g, Ok(Net.V6(Net.Ipv6FromSegments(g.components))))
    case Unknown =>
      (f, Err(if f.state == Initial then MissingIp else InvalidIp))
  }

  /// `on_digit`: the first digit of a component records where it starts; a
  /// digit right after a single leading `:` is refused.
  function OnDigit(f: Fields, text: seq<uint8>, pos: nat): (r: (Fields, Option<ParseError>))
    requires Inv(f, text) && pos < |text|
    ensures Inv(r.0, text)
  {
    match f.state
    case Digit => (f, None)
    case V6Sep | Initial | V4Sep =>
      if f.state == V6Sep && f.sepInitial then (f, Some(InvalidIpv6))
      else (f.(state := Digit, startDigitPosition := pos), None)
  }

  /// `on_v4_sep`: a `.` ends a component and commits to IPv4.
  function OnV4Sep(f: Fields, text: seq<uint8>, pos: nat): (r: (Fields, Option<ParseError>))
    requires Inv(f, text) && pos <= |text|
    ensures Inv(r.0, text)
  {
    match f.state
    case Digit =>
      (match f.family
       case V6 => (f, Some(InvalidIpv6))
       case Unknown =>
         var (g, e) := ExtractComponent(f.(family := V4), text, pos);
         (g.(state := V4Sep), e)
       case V4 =>
         var (g, e) := ExtractComponent(f, text, pos);
         (g.(state := V4Sep), e))
    case V4Sep | V6Sep | Initial => (f.(state := V4Sep), Some(InvalidIpv4))
  }

  /// `on_v6_sep`: a `:` ends a component and commits to IPv6; a second `:`
  /// in a row records the one allowed `::`.
  function OnV6Sep(f: Fields, text: seq<uint8>, pos: nat): (r: (Fields, Option<ParseError>))
    requires Inv(f, text) && pos <= |text|
    ensures Inv(r.0, text)
  {
    match f.state
    case Digit =>
      (match f.family
       case V4 => (f, Some(InvalidIpv4))
       case Unknown =>
         var (g, e) := ExtractComponent(f.(family := V6), text, pos);
         (g.(state := V6Sep), e)
       case V6 =>
         var (g, e) := ExtractComponent(f, text, pos);
         (g.(state := V6Sep), e))
    case V6Sep =>
      if f.zeroSkip then (f, Some(Ipv6MultipleZeroAbbrv))
      else (f.(sepInitial := false, zeroSkip := true, zeroComponentStart := f.componentsSize, family := V6), None)
    case Initial => (f.(sepInitial := true, state := V6Sep), None)
    case V4Sep => (f.(state := V6Sep), Some(InvalidIpv4))
  }

  /// `on_ip_end`: the end of the address, at the end of input or at `/`.
  function OnIpEnd(f: Fields, text: seq<uint8>, pos: nat): (r: (Fields, Result<Net.IpAddr, ParseError>))
    requires Inv(f, text) && pos <= |text|
    ensures Inv(r.0, text)
    ensures r.1.Ok? ==> r.0.family != Unknown && (r.1.value.V4? <==> r.0.family == V4)
  {
    match f.state
    case Digit =>
      var (g, e) := ExtractComponent(f, text, pos);
      if e.None? then ReadIp(g, text) else (g, Err(e.value))
    case V4Sep => (f, Err(InvalidIpv4))
    case V6Sep =>
      if f.zeroSkip then
        if f.componentsSize == 0 then (f, Ok(Net.V6(Net.UNSPECIFIED_V6)))
        else ReadIp(f, text)
      else (f, Err(InvalidIpv6))
    case Initial => (f, Err(MissingIp))
  }

  /// `on_cidr_sep`: the prefix after the `/` at `pos`.
  function OnCidrSep(f: Fields, text: seq<uint8>, pos: nat): (r: Result<uint8, ParseError>)
    requires pos < |text|
    ensures r.Ok? ==> (f.family == V4 ==> r.value <= 32) && (f.family == V6 ==> r.value <= 128)
    ensures pos + 1 == |text| ==> r == Err(MissingCidr)
    ensures pos + 1 < |text| && (f.family == Unknown || !Radix.Accepts(text[pos + 1..], 10, 0xFF)) ==>
      r == Err(InvalidCidr(text[pos + 1..]))
    ensures pos + 1 < |text| && f.family != Unknown && Radix.Accepts(text[pos + 1..], 10, 0xFF) ==>
      var v := Radix.Value(Radix.Unsigned(text[pos + 1..]), 10);
      r == if f.family == V4 && v > 32 then Err(Ipv4CidrPrefixOverflow(v))
           else if f.family == V6 && v > 128 then Err(Ipv6CidrPrefixOverflow(v))
           else Ok(v)
  {
    var digitPos := pos + 1;
    if digitPos >= |text| then Err(MissingCidr)
    else
      var rest := text[digitPos..];
      match Radix.FromStrRadix(rest, 10, 0xFF)
      case Some(prefix) =>
        (match f.family
         case V4 => if prefix > Ipv4.BITS_LEN then Err(Ipv4CidrPrefixOverflow(prefix)) else Ok(prefix)
         case V6 => if prefix > Ipv6.BITS_LEN then Err(Ipv6CidrPrefixOverflow(prefix)) else Ok(prefix)
         case Unknown => Err(InvalidCidr(rest)))
      case None => Err(InvalidCidr(rest))
  }

  // ---------------------------------------------------------------------------
  // The loop of `parse`

  type Parsed = (Net.IpAddr, Option<uint8>)

  /// What one byte of input does: the machine moves on with new fields, or
  /// the parse stops with its result.
  datatype Outcome = Continue(next: Fields) | Stop(result: Result<Parsed, ParseError>)

  /// One turn of the loop, on the byte at `idx`: digits, `.` and `:` are
  /// events that may fail; `/` ends the address and reads the prefix; any
  /// other byte is refused.
  function Step(text: seq<uint8>, f: Fields, idx: nat): (o: Outcome)
    requires Inv(f, text) && idx < |text|
    ensures o.Continue? ==> Inv(o.next, text)
  {
    var ch := text[idx];
    if Radix.IsHexDigit(ch) then
      var (g, e) := OnDigit(f, text, idx);
      if e.Some? then Stop(Err(e.value)) else Continue(g)
    else if ch == DOT then
      var (g, e) := OnV4Sep(f, text, idx);
      if e.Some? then Stop(Err(e.value)) else Continue(g)
    else if ch == COLON then
      var (g, e) := OnV6Sep(f, text, idx);
      if e.Some? then Stop(Err(e.value)) else Continue(g)
    else if ch == SLASH then
      var (g, ip) := OnIpEnd(f, text, idx);
      if ip.Err? then Stop(Err(ip.error))
      else
        (match OnCidrSep(g, text, idx)
         case Ok(prefix) => Stop(Ok((ip.value, Some(prefix))))
         case Err(e) => Stop(Err(e)))
    else Stop(Err(UnexpectedCharacter(ch, idx)))
  }

  /// After the loop: the address ends with the input.
  function Finish(text: seq<uint8>, f: Fields): (r: Result<Parsed, ParseError>)
    requires Inv(f, text)
    ensures r.Ok? ==> r.value.1.None?
  {
    var (_, ip) := OnIpEnd(f, text, |text|);
    if ip.Err? then Err(ip.error) else Ok((ip.value, None))
  }

  /// The bytes from `idx` on, fed to the machine in state `f`.
  function Run(text: seq<uint8>, f: Fields, idx: nat): (r: Result<Parsed, ParseError>)
    requires Inv(f, text) && idx <= |text|
    decreases |text| - idx, 1
  {
    if idx < |text| then Advance(text, f, idx) else Finish(text, f)
  }

  /// The run from the byte at `idx` on: one step, then the rest.
  function Advance(text: seq<uint8>, f: Fields, idx: nat): (r: Result<Parsed, ParseError>)
    requires Inv(f, text) && idx < |text|
    decreases |text| - idx, 0
  {
    match Step(text, f, idx)
    case Continue(g) => Run(text, g, idx + 1)
    case Stop(result) => result
  }

  /// `parse_ip`
  function Parse(text: seq<uint8>): (r: Result<Parsed, ParseError>)
  {
    StartInv(text);
    Run(text, Start, 0)
  }
}
