/// How the parser fails: which event reports which error, the bounds on the
/// component buffer, the rules `ReadIp` applies, and a few inputs worked
/// through to their result.
module ParserErrors {
  import opened Bits
  import opened Wrappers
  import Net
  import Radix
  import opened ParserSpec
  import opened AddressText
  import opened ParserProperties

  // ---------------------------------------------------------------------------
  // Family mixing

  /// A `.` or `:` before any digit: `.` is refused as IPv4, `:` only opens a
  /// leading `::`.
  lemma SeparatorFirst(text: seq<uint8>, f: Fields, i: nat)
    requires Inv(f, text) && f.state == Initial && i < |text|
    ensures text[i] == DOT ==> Step(text, f, i) == Stop(Err(InvalidIpv4))
    ensures text[i] == COLON ==> Step(text, f, i) == Continue(f.(sepInitial := true, state := V6Sep))
  {
  }

  /// After a digit, `.` commits to IPv4 unless IPv6 is already committed, and
  /// `:` commits to IPv6 unless IPv4 is.
  lemma SeparatorAfterDigit(text: seq<uint8>, f: Fields, i: nat)
    requires Inv(f, text) && f.state == Digit && i < |text|
    ensures text[i] == DOT && f.family == V6 ==> Step(text, f, i) == Stop(Err(InvalidIpv6))
    ensures text[i] == COLON && f.family == V4 ==> Step(text, f, i) == Stop(Err(InvalidIpv4))
    ensures text[i] == DOT && f.family != V6 && Step(text, f, i).Continue? ==>
      Step(text, f, i).next.family == V4 && Step(text, f, i).next.state == V4Sep
    ensures text[i] == COLON && f.family != V4 && Step(text, f, i).Continue? ==>
      Step(text, f, i).next.family == V6 && Step(text, f, i).next.state == V6Sep
  {
  }

  /// The states the machine can be in for each family: nothing read means no
  /// family yet, and IPv4 only ever reads digits and dots.
  predicate Consistent(f: Fields)
  {
    && (f.state == Initial ==> f.family == Unknown)
    && (f.family == V4 ==> f.state == Digit || f.state == V4Sep)
  }

  /// Every event keeps the fields consistent; `Start` is.
  lemma StepConsistent(text: seq<uint8>, f: Fields, i: nat)
    requires Inv(f, text) && Consistent(f) && i < |text|
    ensures Consistent(Start)
    ensures Step(text, f, i).Continue? ==> Consistent(Step(text, f, i).next)
  {
  }

  /// Once a family is committed it never changes.
  lemma FamilyKept(text: seq<uint8>, f: Fields, i: nat)
    requires Inv(f, text) && Consistent(f) && f.family != Unknown && i < |text|
    ensures Step(text, f, i).Continue? ==> Step(text, f, i).next.family == f.family
  {
  }

  // ---------------------------------------------------------------------------
  // The component buffer

  /// A fifth IPv4 component or a ninth IPv6 component is refused before it is
  /// written, so the buffer index stays below eight.
  lemma ExtractBounds(text: seq<uint8>, f: Fields, pos: nat)
    requires Inv(f, text) && pos <= |text|
    ensures f.family == V4 && f.componentsSize == 4 ==> ExtractComponent(f, text, pos).1 == Some(Ipv4InvalidComponentSize(5))
    ensures f.family == V6 && f.componentsSize == 8 ==> ExtractComponent(f, text, pos).1 == Some(Ipv6InvalidComponentSize(9))
    ensures ExtractComponent(f, text, pos).0.componentsSize <= f.componentsSize + 1
    ensures ExtractComponent(f, text, pos).0.componentsSize <= 8
  {
  }

  /// A component extracted with the digits since `startDigitPosition`: the
  /// value is stored when the digits form a number below 2^16 in the
  /// family's radix; otherwise the digits are reported.
  lemma ExtractValue(text: seq<uint8>, f: Fields, pos: nat)
    requires Inv(f, text) && f.family != Unknown && f.startDigitPosition <= pos <= |text|
    requires f.componentsSize < (if f.family == V4 then 4 else 8)
    ensures var digits := text[f.startDigitPosition..pos];
      var radix := if f.family == V4 then 10 else 16;
      var (g, e) := ExtractComponent(f, text, pos);
      match Radix.FromStrRadix(digits, radix, 0xFFFF)
      case Some(v) =>
        e.None? && g.componentsSize == f.componentsSize + 1
        && g.components == f.components[f.componentsSize := v]
      case None => e == Some(InvalidComponent(digits)) && g == f
  {
  }

  /// Every event keeps the count within the buffer.
  lemma StepKeepsBounds(text: seq<uint8>, f: Fields, i: nat)
    requires Inv(f, text) && i < |text|
    ensures Step(text, f, i).Continue? ==>
      var g := Step(text, f, i).next;
      g.componentsSize <= 8 && (g.family == V4 ==> g.componentsSize <= 4)
      && g.componentsSize <= f.componentsSize + 1
  {
  }

  // ---------------------------------------------------------------------------
  // Assembling the address

  /// IPv4: four components, each at most 255, make the address in the order
  /// they were read; a wrong count is reported before any octet is looked at;
  /// otherwise the first component above 255 is reported.
  lemma ReadIpV4(text: seq<uint8>, f: Fields)
    requires Inv(f, text) && f.family == V4
    ensures var c := f.components;
      ReadIp(f, text).1.Ok? <==> f.componentsSize == 4 && c[0] <= 255 && c[1] <= 255 && c[2] <= 255 && c[3] <= 255
    ensures ReadIp(f, text).1.Ok? ==> var c := f.components;
      ReadIp(f, text).1.value == Net.V4(Net.Ipv4FromOctets(c[0], c[1], c[2], c[3]))
    ensures f.componentsSize != 4 ==> ReadIp(f, text).1 == Err(Ipv4InvalidComponentSize(f.componentsSize))
    ensures f.componentsSize == 4 && ReadIp(f, text).1.Err? ==>
      exists k :: 0 <= k < 4 && ReadIp(f, text).1 == Err(Ipv4ComponentOverflow(f.components[k]))
        && f.components[k] > 255 && forall j :: 0 <= j < k ==> f.components[j] <= 255
  {
  }

  /// IPv6: with a `::` recorded at z and n < 8 components, the buffer is
  /// `components[..z]`, then 8 - n zeros, then `components[z..n]`; with 8
  /// components it is left as it is; without `::`, fewer than 8 is an error.
  lemma ReadIpV6(text: seq<uint8>, f: Fields)
    requires Inv(f, text) && f.family == V6
    ensures var n := f.componentsSize as nat; var z := f.zeroComponentStart as nat;
      n < 8 && f.zeroSkip ==>
        && ReadIp(f, text).1.Ok?
        && var r := ReadIp(f, text).0.components;
        && r[..z] == f.components[..z]
        && (forall k :: z <= k < z + 8 - n ==> r[k] == 0)
        && r[z + 8 - n..] == f.components[z..n]
        && ReadIp(f, text).1.value == Net.V6(Net.Ipv6FromSegments(r))
    ensures f.componentsSize == 8 ==>
      ReadIp(f, text) == (f, Ok(Net.V6(Net.Ipv6FromSegments(f.components))))
    ensures f.componentsSize < 8 && !f.zeroSkip ==>
      ReadIp(f, text).1 == Err(Ipv6InvalidComponentSize(f.componentsSize))
  {
    var n := f.componentsSize as nat;
    var z := f.zeroComponentStart as nat;
    if n < 8 && f.zeroSkip {
      var r := Splice(f.components, z, n);
      assert r[..z] == f.components[..z];
      assert r[z + 8 - n..] == f.components[z..n];
    }
  }

  /// Four collected components: the first above 255 is reported, and four
  /// octets make the address.
  lemma AssembledV4(h: Fields, text: seq<uint8>, xs: seq<uint16>)
    requires Inv(h, text) && h.family == V4 && h.componentsSize == 4 && |xs| == 4
    requires h.components == xs + Start.components[4..]
    ensures Assembled(h, text) == match OctetOverflow(xs)
      case Some(v) => Err(Ipv4ComponentOverflow(v))
      case None => Ok((Net.V4(Net.Ipv4FromOctets(xs[0], xs[1], xs[2], xs[3])), None))
  {
    assert h.components[0] == xs[0] && h.components[1] == xs[1] && h.components[2] == xs[2] && h.components[3] == xs[3];
  }

  /// Four decimal components of any 16-bit value: the first above 255 is
  /// reported (`256.0.0.1` gives `Ipv4ComponentOverflow(256)`), and four
  /// octets make the address.
  lemma Ipv4Components(xs: seq<uint16>)
    requires |xs| == 4
    ensures Parse(Joined(xs, V4)) == match OctetOverflow(xs)
      case Some(v) => Err(Ipv4ComponentOverflow(v))
      case None => Ok((Net.V4(Net.Ipv4FromOctets(xs[0], xs[1], xs[2], xs[3])), None))
  {
    var h := ParseJoined(Joined(xs, V4), xs, V4);
    AssembledV4(h, Joined(xs, V4), xs);
  }

  /// Too few components without a `::` are reported with their count.
  lemma TooFewComponents(xs: seq<uint16>, fam: FamilyType)
    requires fam != Unknown && 2 <= |xs| < Capacity(fam)
    ensures Parse(Joined(xs, fam)) == Err(if fam == V4 then Ipv4InvalidComponentSize(|xs|) else Ipv6InvalidComponentSize(|xs|))
  {
    var h := ParseJoined(Joined(xs, fam), xs, fam);
    if fam == V4 {
      ReadIpV4(Joined(xs, fam), h);
    } else {
      ReadIpV6(Joined(xs, fam), h);
    }
  }

  // ---------------------------------------------------------------------------
  // The end of the address

  /// What the end of the input makes of each state: nothing read is a
  /// missing address, a trailing `.` an invalid IPv4 address, a trailing
  /// single `:` an invalid IPv6 address, and `::` with no group the
  /// unspecified address.
  lemma EndOfInput(text: seq<uint8>, f: Fields)
    requires Inv(f, text)
    ensures f.state == Initial ==> Finish(text, f) == Err(MissingIp)
    ensures f.state == V4Sep ==> Finish(text, f) == Err(InvalidIpv4)
    ensures f.state == V6Sep && !f.zeroSkip ==> Finish(text, f) == Err(InvalidIpv6)
    ensures f.state == V6Sep && f.zeroSkip && f.componentsSize == 0 ==>
      Finish(text, f) == Ok((Net.V6(Net.UNSPECIFIED_V6), None))
    ensures f.state == Digit && f.family == Unknown ==> Finish(text, f) == Err(InvalidIp)
  {
  }

  /// Digits with no separator never commit to a family: the input is not an
  /// address of either kind.
  lemma DigitsOnly(text: seq<uint8>)
    requires |text| > 0 && forall k :: 0 <= k < |text| ==> Radix.IsHexDigit(text[k])
    ensures Parse(text) == Err(InvalidIp)
  {
    StartInv(text);
    EnterDigits(text, Start, 0, |text|);
    var g := Start.(state := Digit, startDigitPosition := 0);
    RunAtEnd(text, g);
    EndOfInput(text, g);
  }

  // ---------------------------------------------------------------------------
  // Unexpected bytes

  /// The machine run over the bytes from `i` up to `k`: it stops with a
  /// result, or reaches `k` with the fields it has then.
  function Reach(text: seq<uint8>, f: Fields, i: nat, k: nat): (o: Outcome)
    requires Inv(f, text) && i <= k <= |text|
    ensures o.Continue? ==> Inv(o.next, text)
    decreases k - i
  {
    if i == k then Continue(f)
    else match Step(text, f, i)
      case Continue(g) => Reach(text, g, i + 1, k)
      case Stop(r) => Stop(r)
  }

  /// A run is the run up to `k`, then the run from `k` on.
  lemma {:induction false} RunReach(text: seq<uint8>, f: Fields, i: nat, k: nat)
    requires Inv(f, text) && i <= k <= |text|
    ensures Run(text, f, i) == match Reach(text, f, i, k)
      case Continue(g) => Run(text, g, k)
      case Stop(r) => r
    decreases k - i
  {
    if i < k {
      match Step(text, f, i)
      case Continue(g) =>
        RunReach(text, g, i + 1, k);
        RunStep(text, f, i, g, i + 1);
      case Stop(r) =>
    }
  }

  /// Without a `/` the machine only stops on an error.
  lemma {:induction false} ReachStopsOnError(text: seq<uint8>, f: Fields, i: nat, k: nat)
    requires Inv(f, text) && i <= k <= |text|
    requires forall j :: i <= j < k ==> text[j] != SLASH
    ensures Reach(text, f, i, k).Stop? ==> Reach(text, f, i, k).result.Err?
    decreases k - i
  {
    if i < k {
      match Step(text, f, i)
      case Continue(g) => ReachStopsOnError(text, g, i + 1, k);
      case Stop(r) =>
    }
  }

  /// A byte that is not a hex digit, `.`, `:` or `/`.
  predicate Unexpected(c: uint8)
  {
    !Radix.IsHexDigit(c) && c != DOT && c != COLON && c != SLASH
  }

  /// The first unexpected byte, at k with no `/` before it, fails the parse:
  /// with `UnexpectedCharacter(byte, k)` unless the bytes before it already
  /// failed.
  lemma FirstUnexpectedByte(text: seq<uint8>, k: nat)
    requires k < |text| && Unexpected(text[k])
    requires forall j :: 0 <= j < k ==> text[j] != SLASH
    ensures Parse(text).Err?
    ensures Reach(text, Start, 0, k).Continue? ==>
      Parse(text) == Err(UnexpectedCharacter(text[k], k))
    ensures Reach(text, Start, 0, k).Stop? ==>
      Parse(text) == Reach(text, Start, 0, k).result
  {
    StartInv(text);
    RunReach(text, Start, 0, k);
    ReachStopsOnError(text, Start, 0, k);
  }

  // ---------------------------------------------------------------------------
  // Inputs worked through

  /// `""`
  lemma EmptyInput()
    ensures Parse([]) == Err(MissingIp)
  {
  }

  /// `::`
  lemma DoubleColonAlone()
    ensures Parse([COLON, COLON]) == Ok((Net.V6(Net.UNSPECIFIED_V6), None))
  {
    var text := [COLON, COLON];
    StartInv(text);
    var f1 := Start.(sepInitial := true, state := V6Sep);
    var f2 := f1.(sepInitial := false, zeroSkip := true, zeroComponentStart := 0, family := V6);
    RunStep(text, Start, 0, f1, 1);
    RunStep(text, f1, 1, f2, 2);
    RunAtEnd(text, f2);
  }

  /// `0:::`: a second `::` is refused.
  lemma SecondDoubleColon()
    ensures Parse([0x30, COLON, COLON, COLON]) == Err(Ipv6MultipleZeroAbbrv)
  {
    var text := [0x30, COLON, COLON, COLON];
    StartInv(text);
    var f1 := Start.(state := Digit, startDigitPosition := 0);
    Radix.ParseFormatted(0, 16, 0xFFFF);
    assert Radix.ToDigits(0, 16) == [0x30];
    assert text[0..1] == [0x30];
    var f2 := Start.(state := V6Sep, family := V6, componentsSize := 1, components := Start.components[0 := 0]);
    var f3 := f2.(zeroSkip := true, zeroComponentStart := 1);
    RunStep(text, Start, 0, f1, 1);
    RunStep(text, f1, 1, f2, 2);
    RunStep(text, f2, 2, f3, 3);
  }

  /// `:1`: a single leading `:` cannot be followed by a digit.
  lemma LeadingColonThenDigit()
    ensures Parse([COLON, 0x31]) == Err(InvalidIpv6)
  {
    var text := [COLON, 0x31];
    StartInv(text);
    var f1 := Start.(sepInitial := true, state := V6Sep);
    RunStep(text, Start, 0, f1, 1);
  }

  /// `1.`: the input ends on a `.`.
  lemma TrailingDot()
    ensures Parse([0x31, DOT]) == Err(InvalidIpv4)
  {
    var text := [0x31, DOT];
    StartInv(text);
    var f1 := Start.(state := Digit, startDigitPosition := 0);
    Radix.ParseFormatted(1, 10, 0xFFFF);
    assert Radix.ToDigits(1, 10) == [0x31];
    assert text[0..1] == [0x31];
    var f2 := Start.(state := V4Sep, family := V4, componentsSize := 1, components := Start.components[0 := 1]);
    RunStep(text, Start, 0, f1, 1);
    RunStep(text, f1, 1, f2, 2);
    RunAtEnd(text, f2);
  }

  /// `1:`: the input ends on a single `:`.
  lemma TrailingColon()
    ensures Parse([0x31, COLON]) == Err(InvalidIpv6)
  {
    var text := [0x31, COLON];
    StartInv(text);
    var f1 := Start.(state := Digit, startDigitPosition := 0);
    Radix.ParseFormatted(1, 16, 0xFFFF);
    assert Radix.ToDigits(1, 16) == [0x31];
    assert text[0..1] == [0x31];
    var f2 := Start.(state := V6Sep, family := V6, componentsSize := 1, components := Start.components[0 := 1]);
    RunStep(text, Start, 0, f1, 1);
    RunStep(text, f1, 1, f2, 2);
    RunAtEnd(text, f2);
  }

  /// `1:.`: a `.` right after a `:` is reported as an invalid IPv4 address,
  /// although the `:` already committed to IPv6.
  lemma DotAfterColon()
    ensures Parse([0x31, COLON, DOT]) == Err(InvalidIpv4)
  {
    var text := [0x31, COLON, DOT];
    StartInv(text);
    var f1 := Start.(state := Digit, startDigitPosition := 0);
    Radix.ParseFormatted(1, 16, 0xFFFF);
    assert Radix.ToDigits(1, 16) == [0x31];
    assert text[0..1] == [0x31];
    var f2 := Start.(state := V6Sep, family := V6, componentsSize := 1, components := Start.components[0 := 1]);
    RunStep(text, Start, 0, f1, 1);
    RunStep(text, f1, 1, f2, 2);
  }

  /// `1::2:`: a single trailing `:` is accepted once a `::` was read; the
  /// address is `1::2`.
  lemma TrailingColonAfterGap()
    ensures Parse([0x31, COLON, COLON, 0x32, COLON]) == Ok((Net.V6(Net.Ipv6FromSegments([1, 0, 0, 0, 0, 0, 0, 2])), None))
  {
    var text := [0x31, COLON, COLON, 0x32, COLON];
    StartInv(text);
    var f1 := Start.(state := Digit, startDigitPosition := 0);
    Radix.ParseFormatted(1, 16, 0xFFFF);
    assert Radix.ToDigits(1, 16) == [0x31];
    assert text[0..1] == [0x31];
    var f2 := Start.(state := V6Sep, family := V6, componentsSize := 1, components := Start.components[0 := 1]);
    var f3 := f2.(zeroSkip := true, zeroComponentStart := 1);
    var f4 := f3.(state := Digit, startDigitPosition := 3);
    Radix.ParseFormatted(2, 16, 0xFFFF);
    assert Radix.ToDigits(2, 16) == [0x32];
    assert text[3..4] == [0x32];
    var f5 := f3.(componentsSize := 2, components := f2.components[1 := 2]);
    assert Splice(f5.components, 1, 2) == [1, 0, 0, 0, 0, 0, 0, 2];
    RunStep(text, Start, 0, f1, 1);
    RunStep(text, f1, 1, f2, 2);
    RunStep(text, f2, 2, f3, 3);
    RunStep(text, f3, 3, f4, 4);
    RunStep(text, f4, 4, f5, 5);
    RunAtEnd(text, f5);
  }

  /// `x`: a byte outside the alphabet.
  lemma UnexpectedFirstByte()
    ensures Parse([0x78]) == Err(UnexpectedCharacter(0x78, 0))
  {
    StartInv([0x78]);
  }
}
