/// The IPv6 `::` abbreviation: text with one `::` standing for a run of zero
/// groups parses to the address with that run spliced in.
module ParserZeroRun {
  import opened Bits
  import opened Wrappers
  import Net
  import Ipv6 = V6
  import opened ParserSpec
  import opened AddressText
  import opened ParserProperties

  /// The text before the `::`: the groups of `head`, or nothing.
  function HeadText(head: seq<uint16>): (s: seq<uint8>)
  {
    if head == [] then [] else Joined(head, V6)
  }

  /// The text after the `::`.
  function TailText(tail: seq<uint16>): (s: seq<uint8>)
  {
    if tail == [] then [] else Joined(tail, V6)
  }

  /// The groups `head` and `tail` with the zeros of the `::` between them.
  function Expanded(head: seq<uint16>, tail: seq<uint16>): (r: seq<uint16>)
    requires |head| + |tail| <= 8
    ensures |r| == 8 && r[..|head|] == head && r[8 - |tail|..] == tail
    ensures forall k :: |head| <= k < 8 - |tail| ==> r[k] == 0
  {
    head + seq(8 - |head| - |tail|, _ => 0) + tail
  }

  /// The parser right after the `::`: the groups of `head` stored, the zero
  /// run recorded at slot `|head|`.
  function Gap(head: seq<uint16>): Fields
    requires |head| <= 8
  {
    Start.(state := V6Sep, family := V6, zeroSkip := true,
           components := StoreAll(Start.components, 0, head),
           componentsSize := |head|, zeroComponentStart := |head|)
  }

  lemma GapInv(text: seq<uint8>, head: seq<uint16>)
    requires |head| <= 8
    ensures Inv(Gap(head), text)
  {
  }

  // ---------------------------------------------------------------------------
  // Up to the `::`

  /// A `:` at the start of the input opens a leading `::`.
  lemma StepLeadingColon(text: seq<uint8>, f: Fields, i: nat)
    requires Inv(f, text) && f.state == Initial && i < |text| && text[i] == COLON
    ensures Step(text, f, i) == Continue(f.(sepInitial := true, state := V6Sep))
  {
  }

  /// A `:` right after a `:` records the zero run at the current count.
  lemma StepSecondColon(text: seq<uint8>, f: Fields, i: nat)
    requires Inv(f, text) && f.state == V6Sep && !f.zeroSkip && i < |text| && text[i] == COLON
    ensures Step(text, f, i)
      == Continue(f.(sepInitial := false, zeroSkip := true, zeroComponentStart := f.componentsSize, family := V6))
  {
  }

  /// `::` at the start of the input.
  lemma RunLeadingGap(text: seq<uint8>)
    requires 2 <= |text| && text[0] == COLON && text[1] == COLON
    ensures Run(text, Start, 0) == Run(text, Gap([]), 2)
  {
    StartInv(text);
    var f1 := Start.(sepInitial := true, state := V6Sep);
    StepLeadingColon(text, Start, 0);
    StepSecondColon(text, f1, 1);
    assert StoreAll(Start.components, 0, []) == Start.components;
    assert f1.(sepInitial := false, zeroSkip := true, zeroComponentStart := 0, family := V6) == Gap([]);
    RunStep(text, f1, 1, Gap([]), 2);
    RunStep(text, Start, 0, f1, 1);
  }

  /// The fields once the last group of `head` is read, before its `:`.
  lemma HeadEnd(text: seq<uint8>, head: seq<uint16>, j: nat)
    requires 1 <= |head| <= 8 && j == |Joined(head, V6)| <= |text|
    ensures |Numeral(head[|head| - 1], V6)| <= j
    ensures var g := AfterJoined(Start, head, V6, j);
      && Inv(g, text) && g.state == Digit && (g.family == V6 || g.family == Unknown)
      && g.componentsSize == |head| - 1 && !g.zeroSkip
      && g.startDigitPosition == j - |Numeral(head[|head| - 1], V6)|
  {
    StartInv(text);
    JoinedInvFrom(text, head);
  }

  /// Text that starts with `h` then `::` has both colons right after `h`.
  lemma ColonsAfter(text: seq<uint8>, h: seq<uint8>)
    requires Spells(text, 0, h + [COLON, COLON])
    ensures |h| + 2 <= |text| && Spells(text, 0, h)
    ensures text[|h|] == COLON && text[|h| + 1] == COLON
  {
    SpellsAppend(text, 0, h, [COLON, COLON]);
    SpellsSlice(text, |h|, [COLON, COLON]);
    assert text[|h|] == text[|h|..|h| + 2][0];
  }

  /// Text that starts with the groups of `head` has the last group's
  /// numeral right before their end.
  lemma LastNumeralText(text: seq<uint8>, head: seq<uint16>)
    requires 1 <= |head| && Spells(text, 0, Joined(head, V6))
    ensures |Numeral(head[|head| - 1], V6)| <= |Joined(head, V6)| <= |text|
    ensures var j := |Joined(head, V6)|; var n := Numeral(head[|head| - 1], V6);
      text[j - |n|..j] == n
  {
    var j := |Joined(head, V6)|;
    var n := Numeral(head[|head| - 1], V6);
    JoinedSuffix(text, 0, head, V6);
    SpellsSlice(text, j - |n|, n);
    assert j - |n| + |n| == j;
  }

  /// The fields after the groups of `head` satisfy the invariant.
  lemma JoinedInvFrom(text: seq<uint8>, head: seq<uint16>)
    requires 1 <= |head| <= 8 && |Joined(head, V6)| <= |text|
    ensures |Numeral(head[|head| - 1], V6)| <= |Joined(head, V6)|
    ensures Inv(AfterJoined(Start, head, V6, |Joined(head, V6)|), text)
  {
    JoinedLast(head, V6);
  }

  /// The `::` after the groups of `head`: the first `:` stores the last
  /// group, the second records the zero run.
  lemma HeadColons(text: seq<uint8>, head: seq<uint16>)
    requires 1 <= |head| <= 8 && Spells(text, 0, Joined(head, V6) + [COLON, COLON])
    ensures |Numeral(head[|head| - 1], V6)| <= |Joined(head, V6)| && |Joined(head, V6)| + 2 <= |text|
    ensures Inv(AfterJoined(Start, head, V6, |Joined(head, V6)|), text)
    ensures Run(text, AfterJoined(Start, head, V6, |Joined(head, V6)|), |Joined(head, V6)|)
      == Run(text, Gap(head), |Joined(head, V6)| + 2)
  {
    var j := |Joined(head, V6)|;
    HeadColonSteps(text, head);
    var g := AfterJoined(Start, head, V6, j);
    var f1 := AfterFirst(g, head[|head| - 1], V6);
    RunTwoSteps(text, g, f1, Gap(head), j);
  }

  /// The two steps of the `::` after the groups of `head`.
  lemma HeadColonSteps(text: seq<uint8>, head: seq<uint16>)
    requires 1 <= |head| <= 8 && Spells(text, 0, Joined(head, V6) + [COLON, COLON])
    ensures |Numeral(head[|head| - 1], V6)| <= |Joined(head, V6)| && |Joined(head, V6)| + 2 <= |text|
    ensures var j := |Joined(head, V6)|;
      var g := AfterJoined(Start, head, V6, j);
      var f1 := AfterFirst(g, head[|head| - 1], V6);
      && Inv(g, text) && Inv(f1, text)
      && Step(text, g, j) == Continue(f1)
      && Step(text, f1, j + 1) == Continue(Gap(head))
  {
    var j := |Joined(head, V6)|;
    HeadFirstColon(text, head);
    var g := AfterJoined(Start, head, V6, j);
    var f1 := AfterFirst(g, head[|head| - 1], V6);
    StepSecondColon(text, f1, j + 1);
    GapAfterHead(head, j);
  }

  /// The first `:` of the `::` after the groups of `head` stores the last
  /// group.
  lemma HeadFirstColon(text: seq<uint8>, head: seq<uint16>)
    requires 1 <= |head| <= 8 && Spells(text, 0, Joined(head, V6) + [COLON, COLON])
    ensures |Numeral(head[|head| - 1], V6)| <= |Joined(head, V6)| && |Joined(head, V6)| + 2 <= |text|
    ensures var j := |Joined(head, V6)|;
      var g := AfterJoined(Start, head, V6, j);
      var f1 := AfterFirst(g, head[|head| - 1], V6);
      && Inv(g, text) && Inv(f1, text)
      && f1.state == V6Sep && !f1.zeroSkip && text[j + 1] == COLON
      && Step(text, g, j) == Continue(f1)
  {
    var j := |Joined(head, V6)|;
    ColonsAfter(text, Joined(head, V6));
    LastNumeralText(text, head);
    HeadEnd(text, head, j);
    var g := AfterJoined(Start, head, V6, j);
    StepSep(text, g, j, V6, head[|head| - 1]);
  }

  /// Two bytes that each let the machine continue.
  lemma RunTwoSteps(text: seq<uint8>, f: Fields, f1: Fields, f2: Fields, j: nat)
    requires Inv(f, text) && j + 1 < |text| && Step(text, f, j) == Continue(f1)
    requires Inv(f1, text) && Step(text, f1, j + 1) == Continue(f2)
    ensures Inv(f2, text) && Run(text, f, j) == Run(text, f2, j + 2)
  {
    RunStep(text, f1, j + 1, f2, j + 2);
    RunStep(text, f, j, f1, j + 1);
  }

  /// The fields after the groups of `head` and a `::` are `Gap(head)`.
  lemma GapAfterHead(head: seq<uint16>, j: nat)
    requires 1 <= |head| <= 8 && |Numeral(head[|head| - 1], V6)| <= j
    ensures var f1 := AfterFirst(AfterJoined(Start, head, V6, j), head[|head| - 1], V6);
      f1.(sepInitial := false, zeroSkip := true, zeroComponentStart := f1.componentsSize, family := V6) == Gap(head)
  {
    StoreLast(Start.components, head);
    assert StoreAll(Start.components, 0, head) == head + Start.components[|head|..];
  }

  /// The groups of `head`, then `::`: the run reaches `Gap(head)`.
  lemma RunHeadGap(text: seq<uint8>, head: seq<uint16>)
    requires 1 <= |head| <= 8 && Spells(text, 0, Joined(head, V6) + [COLON, COLON])
    ensures |Joined(head, V6)| + 2 <= |text|
    ensures Run(text, Start, 0) == Run(text, Gap(head), |Joined(head, V6)| + 2)
  {
    var j := |Joined(head, V6)|;
    HeadColons(text, head);
    SpellsAppend(text, 0, Joined(head, V6), [COLON, COLON]);
    StartInv(text);
    RunJoined(text, Start, 0, j, head, V6);
  }

  /// The text up to and including the `::` leads to `Gap(head)`.
  lemma RunGap(text: seq<uint8>, head: seq<uint16>)
    requires |head| <= 8 && Spells(text, 0, HeadText(head) + [COLON, COLON])
    ensures |HeadText(head)| + 2 <= |text|
    ensures Run(text, Start, 0) == Run(text, Gap(head), |HeadText(head)| + 2)
  {
    if head == [] {
      SpellsSlice(text, 0, [COLON, COLON]);
      assert text[0] == text[0..2][0] && text[1] == text[0..2][1];
      RunLeadingGap(text);
    } else {
      RunHeadGap(text, head);
    }
  }

  // ---------------------------------------------------------------------------
  // After the `::`

  /// Storing the groups of `tail` after those of `head` in the zero buffer.
  lemma StoreTail(head: seq<uint16>, tail: seq<uint16>)
    requires 1 <= |tail| && |head| + |tail| <= 8
    ensures StoreAll(StoreAll(Start.components, 0, head), |head|, tail[..|tail| - 1])[|head| + |tail| - 1 := tail[|tail| - 1]]
      == head + tail + seq(8 - |head| - |tail|, _ => 0)
  {
    var n := |tail|;
    var c1 := StoreAll(Start.components, 0, head);
    var c2 := StoreAll(c1, |head|, tail[..n - 1]);
    StoreHead(head);
    StoreMiddle(head, tail[..n - 1], c1);
    StoreFinal(head, tail, c2);
  }

  /// The groups before a `::` sit at the front of the zeroed components.
  lemma StoreHead(head: seq<uint16>)
    requires |head| <= 8
    ensures StoreAll(Start.components, 0, head) == head + seq(8 - |head|, _ => 0)
  {
    var c1 := StoreAll(Start.components, 0, head);
    assert forall k :: 0 <= k < 8 ==> c1[k] == (head + seq(8 - |head|, _ => 0))[k];
  }

  /// All but the last group after a `::` follow the groups before it.
  lemma StoreMiddle(head: seq<uint16>, init: seq<uint16>, c1: seq<uint16>)
    requires |head| + |init| < 8 && c1 == head + seq(8 - |head|, _ => 0)
    ensures StoreAll(c1, |head|, init) == head + init + seq(8 - |head| - |init|, _ => 0)
  {
    var c2 := StoreAll(c1, |head|, init);
    assert forall k :: 0 <= k < 8 ==> c2[k] == (head + init + seq(8 - |head| - |init|, _ => 0))[k];
  }

  /// The last group after a `::` completes the tail.
  lemma StoreFinal(head: seq<uint16>, tail: seq<uint16>, c2: seq<uint16>)
    requires 1 <= |tail| && |head| + |tail| <= 8
    requires c2 == head + tail[..|tail| - 1] + seq(9 - |head| - |tail|, _ => 0)
    ensures c2[|head| + |tail| - 1 := tail[|tail| - 1]] == head + tail + seq(8 - |head| - |tail|, _ => 0)
  {
    var c := c2[|head| + |tail| - 1 := tail[|tail| - 1]];
    assert forall k :: 0 <= k < 8 ==> c[k] == (head + tail + seq(8 - |head| - |tail|, _ => 0))[k];
  }

  /// The fields once the last group of `tail` is stored after `Gap(head)`.
  lemma TailStored(head: seq<uint16>, tail: seq<uint16>, j: nat)
    requires 1 <= |tail| && |head| + |tail| <= 8 && |Numeral(tail[|tail| - 1], V6)| <= j
    ensures var h := Stored(AfterJoined(Gap(head), tail, V6, j), tail[|tail| - 1], V6);
      && h.family == V6 && h.zeroSkip && h.zeroComponentStart == |head|
      && h.componentsSize == |head| + |tail|
      && h.components == head + tail + seq(8 - |head| - |tail|, _ => 0)
  {
    StoreTail(head, tail);
  }

  /// The groups collected around a `::`, with the run recorded at `|head|`,
  /// make the address of `Expanded(head, tail)`.
  lemma OutcomeGap(h: Fields, text: seq<uint8>, head: seq<uint16>, tail: seq<uint16>)
    requires |head| + |tail| <= 8 && Inv(h, text)
    requires h.family == V6 && h.zeroSkip && h.zeroComponentStart == |head|
    requires h.componentsSize == |head| + |tail|
    requires h.components == head + tail + seq(8 - |head| - |tail|, _ => 0)
    ensures Assembled(h, text) == Ok((Net.V6(Net.Ipv6FromSegments(Expanded(head, tail))), None))
  {
    var n := |head| + |tail|;
    if n < 8 {
      var c := h.components;
      var s := Splice(c, |head|, n);
      assert s == Expanded(head, tail) by {
        assert c[..|head|] == head;
        assert c[|head|..n] == tail;
      }
    } else {
      assert h.components == Expanded(head, tail);
    }
  }

  /// Nothing after the `::`: the input ends in the zero run.
  lemma FinishGap(text: seq<uint8>, head: seq<uint16>)
    requires |head| <= 8
    ensures Finish(text, Gap(head)) == Ok((Net.V6(Net.Ipv6FromSegments(Expanded(head, []))), None))
  {
    GapInv(text, head);
    if head == [] {
      assert Expanded([], []) == [0, 0, 0, 0, 0, 0, 0, 0];
      Ipv6.Unspecified();
    } else {
      var h := Gap(head);
      assert h.components == head + [] + seq(8 - |head| - 0, _ => 0) by {
        var r := head + [] + seq(8 - |head| - 0, _ => 0);
        assert forall k :: 0 <= k < 8 ==> h.components[k] == r[k];
      }
      OutcomeGap(h, text, head, []);
    }
  }

  /// The groups around the `::`, once the last is stored, make the address
  /// of `Expanded(head, tail)`.
  lemma TailAssembled(text: seq<uint8>, head: seq<uint16>, tail: seq<uint16>, g: Fields)
    requires 1 <= |tail| && |head| + |tail| <= 8 && |Numeral(tail[|tail| - 1], V6)| <= |text|
    requires g == AfterJoined(Gap(head), tail, V6, |text|)
    requires Inv(Stored(g, tail[|tail| - 1], V6), text)
    ensures Assembled(Stored(g, tail[|tail| - 1], V6), text)
      == Ok((Net.V6(Net.Ipv6FromSegments(Expanded(head, tail))), None))
  {
    TailStored(head, tail, |text|);
    OutcomeGap(Stored(g, tail[|tail| - 1], V6), text, head, tail);
  }

  /// The last group of `tail` ends the input: the address is assembled.
  lemma TailFinish(text: seq<uint8>, head: seq<uint16>, tail: seq<uint16>, p: nat)
    requires 1 <= |tail| && |head| + |tail| <= 8
    requires Spells(text, p, Joined(tail, V6)) && |text| == p + |Joined(tail, V6)|
    ensures |Numeral(tail[|tail| - 1], V6)| <= |text|
    ensures Inv(AfterJoined(Gap(head), tail, V6, |text|), text)
    ensures Finish(text, AfterJoined(Gap(head), tail, V6, |text|))
      == Ok((Net.V6(Net.Ipv6FromSegments(Expanded(head, tail))), None))
  {
    TailEnd(text, head, tail, p);
    var g := AfterJoined(Gap(head), tail, V6, |text|);
    FinishNumeral(text, g, tail[|tail| - 1], V6);
    TailAssembled(text, head, tail, g);
  }

  /// Groups after the `::` to the end of the input.
  lemma RunTail(text: seq<uint8>, head: seq<uint16>, tail: seq<uint16>, p: nat)
    requires 1 <= |tail| && |head| + |tail| <= 8
    requires Spells(text, p, Joined(tail, V6)) && |text| == p + |Joined(tail, V6)|
    ensures Inv(Gap(head), text)
    ensures Run(text, Gap(head), p) == Ok((Net.V6(Net.Ipv6FromSegments(Expanded(head, tail))), None))
  {
    GapInv(text, head);
    TailFinish(text, head, tail, p);
    RunJoined(text, Gap(head), p, |text|, tail, V6);
    RunAtEnd(text, AfterJoined(Gap(head), tail, V6, |text|));
  }

  /// The fields after the groups of `tail`, read from `Gap(head)`: the last
  /// group is pending and runs to the end of the input.
  lemma TailEnd(text: seq<uint8>, head: seq<uint16>, tail: seq<uint16>, p: nat)
    requires 1 <= |tail| && |head| + |tail| <= 8
    requires Spells(text, p, Joined(tail, V6)) && |text| == p + |Joined(tail, V6)|
    ensures |Numeral(tail[|tail| - 1], V6)| <= |text|
    ensures var g := AfterJoined(Gap(head), tail, V6, |text|);
      && Inv(g, text) && g.state == Digit && g.family == V6
      && g.componentsSize == |head| + |tail| - 1
      && g.startDigitPosition + |Numeral(tail[|tail| - 1], V6)| == |text|
      && Spells(text, g.startDigitPosition, Numeral(tail[|tail| - 1], V6))
  {
    JoinedLast(tail, V6);
    JoinedSuffix(text, p, tail, V6);
  }

  /// `head::tail` parses to the address with the zero run between the two
  /// groups of groups, whichever side is empty.
  lemma Ipv6CompressedRoundTrip(head: seq<uint16>, tail: seq<uint16>)
    requires |head| + |tail| <= 8
    ensures Parse(FormatV6Compressed(head, tail)) == Ok((Net.V6(Net.Ipv6FromSegments(Expanded(head, tail))), None))
  {
    var text := FormatV6Compressed(head, tail);
    var d := HeadText(head) + [COLON, COLON];
    assert text == d + TailText(tail);
    SpellsWhole(text);
    SpellsAppend(text, 0, d, TailText(tail));
    var p := |d|;
    GapInv(text, head);
    if tail == [] {
      FinishGap(text, head);
      RunGap(text, head);
      RunAtEnd(text, Gap(head));
    } else {
      RunTail(text, head, tail, p);
      RunGap(text, head);
    }
  }
}
