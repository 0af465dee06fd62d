/// Numerals over ASCII bytes: the digit classes the parser dispatches on and
/// the integer parsing it delegates to `u8::from_str_radix` /
/// `u16::from_str_radix`, with a formatter as its inverse.
module Radix {
  import opened Bits
  import opened Wrappers

  const PLUS: uint8 := 0x2B   // '+'
  const MINUS: uint8 := 0x2D  // '-'

  /// The radixes the parser uses: 10 for IPv4 components and prefixes, 16 for
  /// IPv6 components.
  predicate IsRadix(radix: nat)
  {
    radix == 10 || radix == 16
  }

  /// `u8::is_ascii_hexdigit`
  predicate IsHexDigit(c: uint8)
  {
    (0x30 <= c <= 0x39) || (0x61 <= c <= 0x66) || (0x41 <= c <= 0x46)
  }

  /// `char::to_digit(radix)` on one byte: decimal digits, and for radix 16
  /// also `a`-`f` and `A`-`F`.
  function DigitValue(c: uint8, radix: nat): (r: Option<nat>)
    requires IsRadix(radix)
    ensures r.Some? ==> r.value < radix
    ensures r.Some? <==> (if radix == 10 then 0x30 <= c <= 0x39 else IsHexDigit(c))
  {
    if 0x30 <= c <= 0x39 then Some(c - 0x30)
    else if radix == 16 && 0x61 <= c <= 0x66 then Some(c - 0x61 + 10)
    else if radix == 16 && 0x41 <= c <= 0x46 then Some(c - 0x41 + 10)
    else None
  }

  predicate AllDigits(s: seq<uint8>, radix: nat)
    requires IsRadix(radix)
  {
    forall i :: 0 <= i < |s| ==> DigitValue(s[i], radix).Some?
  }

  /// The reference meaning of a numeral: its digits read big-endian.
  function Value(s: seq<uint8>, radix: nat): (r: nat)
    requires IsRadix(radix) && AllDigits(s, radix)
  {
    if s == [] then 0
    else Value(s[..|s| - 1], radix) * radix + DigitValue(s[|s| - 1], radix).value
  }

  /// The left-to-right accumulation `result = result * radix + digit`
  /// without overflow checks.
  function Fold(acc: nat, s: seq<uint8>, radix: nat): (r: nat)
    requires IsRadix(radix) && AllDigits(s, radix)
    ensures r >= acc
    decreases |s|
  {
    if s == [] then acc
    else Fold(acc * radix + DigitValue(s[0], radix).value, s[1..], radix)
  }

  /// The same accumulation with the checked multiply-add of the library: it
  /// stops at the first byte that is not a digit and as soon as the running
  /// value exceeds `max`.
  function Accumulate(acc: nat, s: seq<uint8>, radix: nat, max: nat): (r: Option<nat>)
    requires IsRadix(radix) && acc <= max
    decreases |s|
  {
    if s == [] then Some(acc)
    else match DigitValue(s[0], radix)
      case None => None
      case Some(d) =>
        var next := acc * radix + d;
        if next > max then None else Accumulate(next, s[1..], radix, max)
  }

  /// The digits proper: one leading `+` is accepted and dropped.
  function Unsigned(s: seq<uint8>): (r: seq<uint8>)
    ensures |s| > 0 && s[0] == PLUS ==> r == s[1..]
    ensures (|s| == 0 || s[0] != PLUS) ==> r == s
  {
    if |s| > 0 && s[0] == PLUS then s[1..] else s
  }

  /// What `uN::from_str_radix(s, radix)` accepts with `max` = `uN::MAX`: one
  /// optional leading `+`, then at least one digit of the radix, of value at
  /// most `max`. Leading zeros are allowed.
  predicate Accepts(s: seq<uint8>, radix: nat, max: nat)
    requires IsRadix(radix)
  {
    |Unsigned(s)| > 0 && AllDigits(Unsigned(s), radix) && Value(Unsigned(s), radix) <= max
  }

  /// `uN::from_str_radix(s, radix)` with `max` = `uN::MAX`: fails on empty
  /// input, a lone sign, a byte that is not a digit of the radix, and on a
  /// value above `max`; otherwise it is the value of the digits.
  function FromStrRadix(s: seq<uint8>, radix: nat, max: nat): (r: Option<nat>)
    requires IsRadix(radix)
    ensures r.Some? <==> |Unsigned(s)| > 0 && AllDigits(Unsigned(s), radix) && Value(Unsigned(s), radix) <= max
    ensures r.Some? ==> r.value == Value(Unsigned(s), radix) <= max
    ensures |s| == 0 ==> r.None?
  {
    if |s| == 0 then None
    else if s == [PLUS] || s == [MINUS] then None
    else
      AccumulateCorrect(0, Unsigned(s), radix, max);
      if AllDigits(Unsigned(s), radix) then
        FoldIsValue(Unsigned(s), radix);
        Accumulate(0, Unsigned(s), radix, max)
      else
        Accumulate(0, Unsigned(s), radix, max)
  }

  /// The checked accumulation succeeds exactly when every byte is a digit and
  /// the unchecked value stays within `max`, and then agrees with it.
  lemma {:induction false} AccumulateCorrect(acc: nat, s: seq<uint8>, radix: nat, max: nat)
    requires IsRadix(radix) && acc <= max
    ensures Accumulate(acc, s, radix, max).Some? <==> AllDigits(s, radix) && Fold(acc, s, radix) <= max
    ensures Accumulate(acc, s, radix, max).Some? ==> Accumulate(acc, s, radix, max).value == Fold(acc, s, radix)
    decreases |s|
  {
    if s != [] {
      match DigitValue(s[0], radix)
      case None =>
      case Some(d) =>
        var next := acc * radix + d;
        if next <= max {
          AccumulateCorrect(next, s[1..], radix, max);
        }
        assert AllDigits(s, radix) <==> AllDigits(s[1..], radix) by {
          if AllDigits(s[1..], radix) {
            forall i | 0 <= i < |s| ensures DigitValue(s[i], radix).Some? {
              if i > 0 { assert s[i] == s[1..][i - 1]; }
            }
          }
        }
    }
  }

  /// Folding one more digit onto the right.
  lemma {:induction false} FoldSnoc(acc: nat, s: seq<uint8>, c: uint8, radix: nat)
    requires IsRadix(radix) && AllDigits(s + [c], radix)
    ensures AllDigits(s, radix) && DigitValue(c, radix).Some?
    ensures Fold(acc, s + [c], radix) == Fold(acc, s, radix) * radix + DigitValue(c, radix).value
    decreases |s|
  {
    assert forall i :: 0 <= i < |s| ==> s[i] == (s + [c])[i];
    assert c == (s + [c])[|s|];
    if s != [] {
      assert (s + [c])[1..] == s[1..] + [c];
      FoldSnoc(acc * radix + DigitValue(s[0], radix).value, s[1..], c, radix);
    }
  }

  /// The left-to-right accumulation from zero computes the reference value.
  lemma {:induction false} FoldIsValue(s: seq<uint8>, radix: nat)
    requires IsRadix(radix) && AllDigits(s, radix)
    ensures Fold(0, s, radix) == Value(s, radix)
    decreases |s|
  {
    if s != [] {
      var n := |s|;
      assert s == s[..n - 1] + [s[n - 1]];
      FoldSnoc(0, s[..n - 1], s[n - 1], radix);
      FoldIsValue(s[..n - 1], radix);
    }
  }

  // ---------------------------------------------------------------------------
  // The inverse: formatting a number in a radix (as `Display` / `{:x}` do)

  /// The byte for a digit value: `0`-`9`, then lower-case `a`-`f`.
  function DigitByte(d: nat): (c: uint8)
    requires d < 16
    ensures DigitValue(c, 16) == Some(d)
    ensures d < 10 ==> DigitValue(c, 10) == Some(d)
  {
    if d < 10 then 0x30 + d else 0x61 + d - 10
  }

  /// The shortest numeral for n: no leading zeros, and `0` for zero.
  function ToDigits(n: nat, radix: nat): (s: seq<uint8>)
    requires IsRadix(radix)
    ensures |s| > 0 && AllDigits(s, radix) && Value(s, radix) == n
    ensures forall i :: 0 <= i < |s| ==> IsHexDigit(s[i])
    ensures s[0] != PLUS
    decreases n
  {
    if n < radix then [DigitByte(n)]
    else
      var high := ToDigits(n / radix, radix);
      var s := high + [DigitByte(n % radix)];
      assert s[..|s| - 1] == high;
      s
  }

  /// Parsing a formatted number gives the number back.
  lemma ParseFormatted(n: nat, radix: nat, max: nat)
    requires IsRadix(radix) && n <= max
    ensures FromStrRadix(ToDigits(n, radix), radix, max) == Some(n)
  {
  }

  /// Leading zeros do not change the value.
  lemma {:induction false} LeadingZero(s: seq<uint8>, radix: nat)
    requires IsRadix(radix) && AllDigits(s, radix)
    ensures AllDigits([0x30] + s, radix) && Value([0x30] + s, radix) == Value(s, radix)
    decreases |s|
  {
    var t := [0x30] + s;
    assert forall i :: 0 < i < |t| ==> t[i] == s[i - 1];
    if s != [] {
      var n := |s|;
      assert t[..|t| - 1] == [0x30] + s[..n - 1];
      LeadingZero(s[..n - 1], radix);
    }
  }
}
