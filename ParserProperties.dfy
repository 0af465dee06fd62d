/// What the parser promises, proved on the state machine of `ParserSpec`
/// (which `IpParser.ParseIp` computes exactly).
module ParserProperties {
  import opened Bits
  import opened Wrappers
  import Net
  import Radix
  import opened ParserSpec
  import opened AddressText

  // ---------------------------------------------------------------------------
  // Reading numerals

  /// `text` holds the bytes of `s` from position `i` on.
  predicate Spells(text: seq<uint8>, i: nat, s: seq<uint8>)
    decreases |s|
  {
    i + |s| <= |text| && (s == [] || (text[i] == s[0] && Spells(text, i + 1, s[1..])))
  }

  lemma {:induction false} SpellsSlice(text: seq<uint8>, i: nat, s: seq<uint8>)
    ensures Spells(text, i, s) <==> i + |s| <= |text| && text[i..i + |s|] == s
    decreases |s|
  {
    if s != [] && i + |s| <= |text| {
      SpellsSlice(text, i + 1, s[1..]);
      assert text[i..i + |s|] == [text[i]] + text[i + 1..i + |s|];
    }
  }

  lemma {:induction false} SpellsAppend(text: seq<uint8>, i: nat, a: seq<uint8>, b: seq<uint8>)
    ensures Spells(text, i, a + b) <==> Spells(text, i, a) && Spells(text, i + |a|, b)
    decreases |a|
  {
    if a == [] {
      assert a + b == b;
    } else {
      assert (a + b)[0] == a[0];
      assert (a + b)[1..] == a[1..] + b;
      SpellsAppend(text, i + 1, a[1..], b);
    }
  }

  /// One turn of the loop that continues.
  lemma RunStep(text: seq<uint8>, f: Fields, idx: nat, g: Fields, next: nat)
    requires Inv(f, text) && idx < |text| && next == idx + 1
    requires Step(text, f, idx) == Continue(g)
    ensures Inv(g, text) && Run(text, f, idx) == Run(text, g, next)
  {
  }

  /// A hex digit in the `Digit` state changes nothing.
  lemma StepDigit(text: seq<uint8>, f: Fields, i: nat)
    requires Inv(f, text) && f.state == Digit && i < |text| && Radix.IsHexDigit(text[i])
    ensures Step(text, f, i) == Continue(f)
  {
  }

  /// Hex digits met in the `Digit` state change nothing.
  lemma {:induction false} StayInDigit(text: seq<uint8>, f: Fields, i: nat, j: nat)
    requires Inv(f, text) && f.state == Digit && i <= j <= |text|
    requires forall k :: i <= k < j ==> Radix.IsHexDigit(text[k])
    ensures Run(text, f, i) == Run(text, f, j)
    decreases j - i
  {
    if i < j {
      StepDigit(text, f, i);
      StayInDigit(text, f, i + 1, j);
    }
  }

  /// The first digit of a component records where the component starts.
  lemma StepEnter(text: seq<uint8>, f: Fields, i: nat)
    requires Inv(f, text) && f.state != Digit && !(f.state == V6Sep && f.sepInitial)
    requires i < |text| && Radix.IsHexDigit(text[i])
    ensures Step(text, f, i) == Continue(f.(state := Digit, startDigitPosition := i))
  {
  }

  /// The first digit of a component and the digits after it.
  lemma EnterDigits(text: seq<uint8>, f: Fields, i: nat, j: nat)
    requires Inv(f, text) && f.state != Digit && !(f.state == V6Sep && f.sepInitial)
    requires i < j <= |text|
    requires forall k :: i <= k < j ==> Radix.IsHexDigit(text[k])
    ensures Inv(f.(state := Digit, startDigitPosition := i), text)
    ensures Run(text, f, i) == Run(text, f.(state := Digit, startDigitPosition := i), j)
  {
    StepEnter(text, f, i);
    StayInDigit(text, f.(state := Digit, startDigitPosition := i), i + 1, j);
  }

  /// The state reached after a component separator of the family.
  function SepState(fam: FamilyType): ParserState
  {
    if fam == V4 then V4Sep else V6Sep
  }

  /// The number of components of a family.
  function Capacity(fam: FamilyType): nat
  {
    if fam == V4 then 4 else 8
  }

  /// The parser state right after the numeral of x and its separator.
  function AfterFirst(f: Fields, x: uint16, fam: FamilyType): Fields
    requires fam != Unknown && |f.components| == 8 && f.componentsSize < 8
  {
    f.(family := fam, components := f.components[f.componentsSize := x],
       componentsSize := f.componentsSize + 1, startDigitPosition := 0, state := SepState(fam))
  }

  /// A separator after the numeral of x stores x in the next slot and
  /// commits to the family.
  lemma StepSep(text: seq<uint8>, f: Fields, m: nat, fam: FamilyType, x: uint16)
    requires fam != Unknown && Inv(f, text) && f.state == Digit
    requires f.family == fam || f.family == Unknown
    requires f.componentsSize < Capacity(fam)
    requires f.startDigitPosition <= m < |text| && text[m] == SepOf(fam)
    requires text[f.startDigitPosition..m] == Numeral(x, fam)
    ensures Inv(AfterFirst(f, x, fam), text)
    ensures Step(text, f, m) == Continue(AfterFirst(f, x, fam))
  {
    Radix.ParseFormatted(x, RadixOf(fam), 0xFFFF);
    var f' := f.(family := fam);
    assert ExtractComponent(f', text, m) == (AfterFirst(f, x, fam).(state := f.state), None);
  }

  lemma AfterFirstInv(text: seq<uint8>, f: Fields, x: uint16, fam: FamilyType)
    requires fam != Unknown && Inv(f, text)
    requires f.family == fam || f.family == Unknown
    requires f.componentsSize < Capacity(fam)
    ensures Inv(AfterFirst(f, x, fam), text)
  {
  }

  /// A numeral of x followed by the family's separator, read from a state
  /// that expects a component: x lands in the next slot.
  lemma NumeralThenSep(text: seq<uint8>, f: Fields, i: nat, m: nat, fam: FamilyType, x: uint16)
    requires fam != Unknown && Inv(f, text) && !f.sepInitial
    requires f.state == Initial || f.state == SepState(fam)
    requires f.family == fam || f.family == Unknown
    requires f.componentsSize < Capacity(fam)
    requires Spells(text, i, Numeral(x, fam) + [SepOf(fam)]) && m == i + |Numeral(x, fam)| + 1
    ensures Inv(AfterFirst(f, x, fam), text)
    ensures Run(text, f, i) == Run(text, AfterFirst(f, x, fam), m)
  {
    var sep := m - 1;
    SpellsAppend(text, i, Numeral(x, fam), [SepOf(fam)]);
    SpellsSlice(text, i, Numeral(x, fam));
    SpellsSlice(text, sep, [SepOf(fam)]);
    forall k | i <= k < sep ensures Radix.IsHexDigit(text[k]) {
      assert text[k] == text[i..sep][k - i];
    }
    var f1 := f.(state := Digit, startDigitPosition := i);
    EnterDigits(text, f, i, sep);
    StepSep(text, f1, sep, fam, x);
    assert AfterFirst(f1, x, fam) == AfterFirst(f, x, fam);
    RunStep(text, f1, sep, AfterFirst(f, x, fam), m);
  }

  /// The last numeral: read up to its end, it leaves the parser in `Digit`.
  lemma RunLastNumeral(text: seq<uint8>, f: Fields, i: nat, j: nat, x: uint16, fam: FamilyType)
    requires fam != Unknown && Inv(f, text) && !f.sepInitial
    requires f.state == Initial || f.state == SepState(fam)
    requires Spells(text, i, Numeral(x, fam)) && j == i + |Numeral(x, fam)|
    ensures Inv(f.(state := Digit, startDigitPosition := i), text)
    ensures Run(text, f, i) == Run(text, f.(state := Digit, startDigitPosition := i), j)
  {
    SpellsSlice(text, i, Numeral(x, fam));
    forall k | i <= k < j ensures Radix.IsHexDigit(text[k]) {
      assert text[k] == text[i..j][k - i];
    }
    EnterDigits(text, f, i, j);
  }

  /// `ys` written into the buffer from slot `at` on.
  function StoreAll(c: seq<uint16>, at: nat, ys: seq<uint16>): (r: seq<uint16>)
    requires at + |ys| <= |c|
    ensures |r| == |c|
  {
    c[..at] + ys + c[at + |ys|..]
  }

  lemma StoreAllCons(c: seq<uint16>, at: nat, x: uint16, ys: seq<uint16>)
    requires at + 1 + |ys| <= |c|
    ensures StoreAll(c[at := x], at + 1, ys) == StoreAll(c, at, [x] + ys)
  {
    var l := StoreAll(c[at := x], at + 1, ys);
    var r := StoreAll(c, at, [x] + ys);
    assert forall k :: 0 <= k < |c| ==> l[k] == r[k];
  }

  /// The fields after the numerals of `xs` have been read up to position j,
  /// the end of the last numeral: all but the last component stored.
  function AfterJoined(f: Fields, xs: seq<uint16>, fam: FamilyType, j: nat): Fields
    requires fam != Unknown && 1 <= |xs| && |f.components| == 8 && f.componentsSize + |xs| - 1 <= 8
    requires |Numeral(xs[|xs| - 1], fam)| <= j
  {
    f.(state := Digit,
       family := if |xs| >= 2 then fam else f.family,
       components := StoreAll(f.components, f.componentsSize, xs[..|xs| - 1]),
       componentsSize := f.componentsSize + |xs| - 1,
       startDigitPosition := j - |Numeral(xs[|xs| - 1], fam)|)
  }

  /// Storing the first component, then the rest after it.
  lemma AfterJoinedCons(f: Fields, xs: seq<uint16>, fam: FamilyType, j: nat)
    requires fam != Unknown && 2 <= |xs| && |f.components| == 8 && f.componentsSize + |xs| - 1 <= 8
    requires |Numeral(xs[|xs| - 1], fam)| <= j
    ensures AfterJoined(AfterFirst(f, xs[0], fam), xs[1..], fam, j) == AfterJoined(f, xs, fam, j)
  {
    var x := xs[0];
    var ys := xs[1..][..|xs| - 2];
    assert xs[1..][|xs[1..]| - 1] == xs[|xs| - 1];
    assert xs[1..][..|xs[1..]| - 1] == ys;
    assert xs[..|xs| - 1] == [x] + ys;
    StoreAllCons(f.components, f.componentsSize, x, ys);
  }

  /// The last numeral is part of the text.
  lemma {:induction false} JoinedLast(xs: seq<uint16>, fam: FamilyType)
    requires fam != Unknown && 1 <= |xs|
    ensures |Numeral(xs[|xs| - 1], fam)| <= |Joined(xs, fam)|
    decreases |xs|
  {
    if |xs| > 1 {
      JoinedLast(xs[1..], fam);
      assert xs[1..][|xs[1..]| - 1] == xs[|xs| - 1];
    }
  }

  /// The text of separated numerals ends with the last numeral.
  lemma {:induction false} JoinedSuffix(text: seq<uint8>, i: nat, xs: seq<uint16>, fam: FamilyType)
    requires fam != Unknown && 1 <= |xs| && Spells(text, i, Joined(xs, fam))
    ensures |Numeral(xs[|xs| - 1], fam)| <= |Joined(xs, fam)|
    ensures Spells(text, i + |Joined(xs, fam)| - |Numeral(xs[|xs| - 1], fam)|, Numeral(xs[|xs| - 1], fam))
    decreases |xs|
  {
    if |xs| > 1 {
      var d := Numeral(xs[0], fam) + [SepOf(fam)];
      assert Joined(xs, fam) == d + Joined(xs[1..], fam);
      SpellsAppend(text, i, d, Joined(xs[1..], fam));
      JoinedSuffix(text, i + |d|, xs[1..], fam);
      JoinedSuffixStep(text, i, xs, fam);
    }
  }

  /// The step of `JoinedSuffix`: the last numeral of `xs` is the last of
  /// `xs[1..]`.
  lemma JoinedSuffixStep(text: seq<uint8>, i: nat, xs: seq<uint16>, fam: FamilyType)
    requires fam != Unknown && 1 < |xs|
    requires var k := i + |Numeral(xs[0], fam) + [SepOf(fam)]|; var t := xs[1..];
      && |Numeral(t[|t| - 1], fam)| <= |Joined(t, fam)|
      && Spells(text, k + |Joined(t, fam)| - |Numeral(t[|t| - 1], fam)|, Numeral(t[|t| - 1], fam))
    ensures |Numeral(xs[|xs| - 1], fam)| <= |Joined(xs, fam)|
    ensures Spells(text, i + |Joined(xs, fam)| - |Numeral(xs[|xs| - 1], fam)|, Numeral(xs[|xs| - 1], fam))
  {
    assert xs[1..][|xs| - 2] == xs[|xs| - 1];
    assert |Joined(xs, fam)| == |Numeral(xs[0], fam)| + 1 + |Joined(xs[1..], fam)|;
  }

  /// `RunJoined` for a single numeral.
  lemma RunJoinedOne(text: seq<uint8>, f: Fields, i: nat, j: nat, xs: seq<uint16>, fam: FamilyType)
    requires fam != Unknown && |xs| == 1
    requires Inv(f, text) && !f.sepInitial
    requires f.state == Initial || f.state == SepState(fam)
    requires f.family == fam || f.family == Unknown
    requires f.componentsSize + 1 <= Capacity(fam)
    requires Spells(text, i, Joined(xs, fam)) && j == i + |Joined(xs, fam)|
    ensures |Numeral(xs[0], fam)| <= j
    ensures Inv(AfterJoined(f, xs, fam, j), text)
    ensures Run(text, f, i) == Run(text, AfterJoined(f, xs, fam, j), j)
  {
    RunLastNumeral(text, f, i, j, xs[0], fam);
    assert StoreAll(f.components, f.componentsSize, []) == f.components;
    assert AfterJoined(f, xs, fam, j) == f.(state := Digit, startDigitPosition := i);
  }

  /// Reading the separated numerals of `xs` collects them in order.
  lemma {:induction false} RunJoined(text: seq<uint8>, f: Fields, i: nat, j: nat, xs: seq<uint16>, fam: FamilyType)
    requires fam != Unknown && 1 <= |xs|
    requires Inv(f, text) && !f.sepInitial
    requires f.state == Initial || f.state == SepState(fam)
    requires f.family == fam || f.family == Unknown
    requires f.componentsSize + |xs| <= Capacity(fam)
    requires Spells(text, i, Joined(xs, fam)) && j == i + |Joined(xs, fam)|
    ensures |Numeral(xs[|xs| - 1], fam)| <= j
    ensures Inv(AfterJoined(f, xs, fam, j), text)
    ensures Run(text, f, i) == Run(text, AfterJoined(f, xs, fam, j), j)
    decreases |xs|
  {
    if |xs| == 1 {
      RunJoinedOne(text, f, i, j, xs, fam);
    } else {
      assert xs[1..][|xs[1..]| - 1] == xs[|xs| - 1];
      var d := Numeral(xs[0], fam) + [SepOf(fam)];
      assert Joined(xs, fam) == d + Joined(xs[1..], fam);
      SpellsAppend(text, i, d, Joined(xs[1..], fam));
      var m := i + |d|;
      var f2 := AfterFirst(f, xs[0], fam);
      AfterFirstInv(text, f, xs[0], fam);
      assert Spells(text, m, Joined(xs[1..], fam)) && j == m + |Joined(xs[1..], fam)|;
      assert f2.componentsSize + |xs[1..]| <= Capacity(fam);
      JoinedLast(xs, fam);
      AfterJoinedCons(f, xs, fam, j);
      // The run facts come last, once every side condition is established.
      RunJoined(text, f2, m, j, xs[1..], fam);
      NumeralThenSep(text, f, i, m, fam, xs[0]);
    }
  }

  // ---------------------------------------------------------------------------
  // The end of the address

  /// The fields once the numeral of x, the last component, is stored.
  function Stored(g: Fields, x: uint16, fam: FamilyType): Fields
    requires |g.components| == 8 && g.componentsSize < 8
  {
    g.(family := fam, components := g.components[g.componentsSize := x],
       componentsSize := g.componentsSize + 1, startDigitPosition := 0)
  }

  /// What the address read by `ReadIp` makes of the whole input.
  function Assembled(h: Fields, text: seq<uint8>): (r: Result<Parsed, ParseError>)
    requires Inv(h, text)
  {
    var ip := ReadIp(h, text).1;
    if ip.Err? then Err(ip.error) else Ok((ip.value, None))
  }

  /// The numeral of x before position `pos`, extracted as a component of the
  /// family, is stored in the next slot.
  lemma ExtractNumeral(text: seq<uint8>, g: Fields, pos: nat, x: uint16, fam: FamilyType)
    requires fam != Unknown && Inv(g, text) && g.family == fam
    requires g.componentsSize < Capacity(fam)
    requires g.startDigitPosition <= pos <= |text| && text[g.startDigitPosition..pos] == Numeral(x, fam)
    ensures Inv(Stored(g, x, fam), text)
    ensures ExtractComponent(g, text, pos) == (Stored(g, x, fam), None)
  {
    Radix.ParseFormatted(x, RadixOf(fam), 0xFFFF);
  }

  /// Running out of input is the end of the address.
  lemma RunAtEnd(text: seq<uint8>, f: Fields)
    requires Inv(f, text)
    ensures Run(text, f, |text|) == Finish(text, f)
  {
  }

  /// The input ends with the numeral of the last component: it is stored and
  /// the address assembled.
  lemma FinishNumeral(text: seq<uint8>, g: Fields, x: uint16, fam: FamilyType)
    requires fam != Unknown && Inv(g, text) && g.state == Digit && g.family == fam
    requires g.componentsSize < Capacity(fam)
    requires Spells(text, g.startDigitPosition, Numeral(x, fam))
    requires g.startDigitPosition + |Numeral(x, fam)| == |text|
    ensures Inv(Stored(g, x, fam), text)
    ensures Finish(text, g) == Assembled(Stored(g, x, fam), text)
  {
    SpellsSlice(text, g.startDigitPosition, Numeral(x, fam));
    ExtractNumeral(text, g, |text|, x, fam);
  }

  /// A text spells itself.
  lemma SpellsWhole(text: seq<uint8>)
    ensures Spells(text, 0, text)
  {
    SpellsSlice(text, 0, text);
  }

  /// Reading a whole input of separated numerals leaves all but the last
  /// stored and the last one pending at the end of the input.
  lemma ParseToFinish(text: seq<uint8>, xs: seq<uint16>, fam: FamilyType)
    requires fam != Unknown && 2 <= |xs| <= Capacity(fam) && text == Joined(xs, fam)
    ensures |Numeral(xs[|xs| - 1], fam)| <= |text|
    ensures Inv(AfterJoined(Start, xs, fam, |text|), text)
    ensures Parse(text) == Finish(text, AfterJoined(Start, xs, fam, |text|))
  {
    SpellsWhole(text);
    StartInv(text);
    RunJoined(text, Start, 0, |text|, xs, fam);
    RunAtEnd(text, AfterJoined(Start, xs, fam, |text|));
  }

  lemma JoinedInv(text: seq<uint8>, xs: seq<uint16>, fam: FamilyType)
    requires fam != Unknown && 2 <= |xs| <= Capacity(fam) && text == Joined(xs, fam)
    ensures |Numeral(xs[|xs| - 1], fam)| <= |text|
    ensures Inv(AfterJoined(Start, xs, fam, |text|), text)
  {
    ParseToFinish(text, xs, fam);
  }

  /// Storing the last of `xs` after the others fills the buffer with `xs`.
  lemma StoreLast(c: seq<uint16>, xs: seq<uint16>)
    requires 1 <= |xs| <= |c|
    ensures StoreAll(c, 0, xs[..|xs| - 1])[|xs| - 1 := xs[|xs| - 1]] == xs + c[|xs|..]
  {
    var l := StoreAll(c, 0, xs[..|xs| - 1])[|xs| - 1 := xs[|xs| - 1]];
    assert forall k :: 0 <= k < |c| ==> l[k] == (xs + c[|xs|..])[k];
  }

  /// After a whole input of separated numerals the last numeral is the one
  /// pending, and it runs to the end of the input.
  lemma JoinedEnd(text: seq<uint8>, xs: seq<uint16>, fam: FamilyType)
    requires fam != Unknown && 2 <= |xs| <= Capacity(fam) && text == Joined(xs, fam)
    ensures |Numeral(xs[|xs| - 1], fam)| <= |text|
    ensures var g := AfterJoined(Start, xs, fam, |text|);
      && Inv(g, text) && g.state == Digit && g.family == fam
      && g.componentsSize == |xs| - 1
      && g.startDigitPosition + |Numeral(xs[|xs| - 1], fam)| == |text|
      && Spells(text, g.startDigitPosition, Numeral(xs[|xs| - 1], fam))
  {
    JoinedInv(text, xs, fam);
    SpellsWhole(text);
    JoinedSuffix(text, 0, xs, fam);
  }

  /// A whole input of two or more separated numerals collects them in order
  /// and ends in the address assembled from them.
  lemma ParseJoined(text: seq<uint8>, xs: seq<uint16>, fam: FamilyType) returns (h: Fields)
    requires fam != Unknown && 2 <= |xs| <= Capacity(fam) && text == Joined(xs, fam)
    ensures Inv(h, text) && h.family == fam && h.componentsSize == |xs| && !h.zeroSkip
    ensures h.components == xs + Start.components[|xs|..]
    ensures Parse(text) == Assembled(h, text)
  {
    JoinedEnd(text, xs, fam);
    var g := AfterJoined(Start, xs, fam, |text|);
    FinishNumeral(text, g, xs[|xs| - 1], fam);
    h := Stored(g, xs[|xs| - 1], fam);
    StoreLast(Start.components, xs);
    ParseToFinish(text, xs, fam);
  }

  /// Four collected octets make an IPv4 address.
  lemma OutcomeV4(h: Fields, text: seq<uint8>, a: uint8, b: uint8, c: uint8, d: uint8)
    requires Inv(h, text) && h.family == V4 && h.componentsSize == 4
    requires h.components[..4] == [a, b, c, d]
    ensures Assembled(h, text) == Ok((Net.V4(Net.Ipv4FromOctets(a, b, c, d)), None))
  {
    assert h.components[0] == a && h.components[1] == b && h.components[2] == c && h.components[3] == d by {
      assert h.components[..4][0] == h.components[0];
      assert h.components[..4][1] == h.components[1];
      assert h.components[..4][2] == h.components[2];
      assert h.components[..4][3] == h.components[3];
    }
  }

  /// Dotted-decimal text parses to the address of its four octets.
  lemma Ipv4RoundTrip(a: uint8, b: uint8, c: uint8, d: uint8)
    ensures Parse(FormatV4(a, b, c, d)) == Ok((Net.V4(Net.Ipv4FromOctets(a, b, c, d)), None))
  {
    var h := ParseJoined(FormatV4(a, b, c, d), [a, b, c, d], V4);
    OutcomeV4(h, FormatV4(a, b, c, d), a, b, c, d);
  }

  /// Eight collected groups make an IPv6 address, with or without a `::`.
  lemma OutcomeV6Full(h: Fields, text: seq<uint8>)
    requires Inv(h, text) && h.family == V6 && h.componentsSize == 8
    ensures Assembled(h, text) == Ok((Net.V6(Net.Ipv6FromSegments(h.components)), None))
  {
  }

  /// Eight colon-separated groups parse to the address of those groups.
  lemma Ipv6RoundTrip(segments: seq<uint16>)
    requires |segments| == 8
    ensures Parse(FormatV6(segments)) == Ok((Net.V6(Net.Ipv6FromSegments(segments)), None))
  {
    var h := ParseJoined(FormatV6(segments), segments, V6);
    assert h.components == segments;
    OutcomeV6Full(h, FormatV6(segments));
  }
}
