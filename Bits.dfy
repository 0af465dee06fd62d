/// Fixed-width unsigned integers and the operators the CIDR engine applies to
/// them (`&`, `|`, `!`, `<<`, `wrapping_add`, `saturating_sub`).
///
/// A w-bit word is a natural number below 2^w. The bitwise operators are
/// defined bit by bit from the least significant end and look only at the low
/// w bits of their operands; lemmas connect them to plain arithmetic.
module Bits {

  type uint8 = x: int | 0 <= x < 0x100
  type uint16 = x: int | 0 <= x < 0x1_0000
  type uint32 = x: int | 0 <= x < 0x1_0000_0000
  type uint128 = x: int | 0 <= x < 0x1_0000_0000_0000_0000_0000_0000_0000_0000

  const U32_MODULUS: nat := 0x1_0000_0000
  const U128_MODULUS: nat := 0x1_0000_0000_0000_0000_0000_0000_0000_0000

  function Pow2(n: nat): (r: nat)
    ensures r >= 1
  {
    if n == 0 then 1 else 2 * Pow2(n - 1)
  }

  /// `u8::saturating_sub`
  function SaturatingSub(a: uint8, b: uint8): (r: uint8)
    ensures a >= b ==> r == a - b
    ensures a < b ==> r == 0
  {
    if a >= b then a - b else 0
  }

  /// `u8::saturating_add(1)`
  function SaturatingInc(a: uint8): (r: uint8)
    ensures a < 0xFF ==> r == a + 1
    ensures a == 0xFF ==> r == a
  {
    if a < 0xFF then a + 1 else a
  }

  /// Bit i of x (bit 0 is the least significant).
  predicate Bit(x: nat, i: nat)
  {
    (x / Pow2(i)) % 2 == 1
  }

  /// `a & b` on w-bit words.
  function And(a: nat, b: nat, w: nat): (r: nat)
    ensures r < Pow2(w)
    ensures r <= a && r <= b
    decreases w
  {
    if w == 0 then 0
    else 2 * And(a / 2, b / 2, w - 1) + (if a % 2 == 1 && b % 2 == 1 then 1 else 0)
  }

  /// `a | b` on w-bit words.
  function Or(a: nat, b: nat, w: nat): (r: nat)
    ensures r < Pow2(w)
    decreases w
  {
    if w == 0 then 0
    else 2 * Or(a / 2, b / 2, w - 1) + (if a % 2 == 1 || b % 2 == 1 then 1 else 0)
  }

  /// `!a` on w-bit words.
  function Not(a: nat, w: nat): (r: nat)
    ensures r < Pow2(w)
    decreases w
  {
    if w == 0 then 0
    else 2 * Not(a / 2, w - 1) + (1 - a % 2)
  }

  /// `a << s` on w-bit words, for a shift amount below the width: the bits
  /// shifted past the top are lost.
  function ShiftLeft(a: nat, s: nat, w: nat): (r: nat)
    requires s < w
    ensures r < Pow2(w)
  {
    (a * Pow2(s)) % Pow2(w)
  }

  /// `wrapping_add` on w-bit words.
  function WrappingAdd(a: nat, b: nat, w: nat): (r: nat)
    requires a < Pow2(w) && b < Pow2(w)
    ensures a + b < Pow2(w) ==> r == a + b
    ensures a + b >= Pow2(w) ==> r == a + b - Pow2(w)
  {
    DivModUnique(a + b, Pow2(w), if a + b < Pow2(w) then 0 else 1,
                 if a + b < Pow2(w) then a + b else a + b - Pow2(w));
    (a + b) % Pow2(w)
  }

  // ---------------------------------------------------------------------------
  // Arithmetic facts

  lemma {:induction false} Pow2Add(a: nat, b: nat)
    ensures Pow2(a + b) == Pow2(a) * Pow2(b)
  {
    if a > 0 {
      Pow2Add(a - 1, b);
      assert Pow2(a + b) == 2 * Pow2(a - 1 + b);
    }
  }

  lemma {:induction false} Pow2Monotone(a: nat, b: nat)
    requires a <= b
    ensures Pow2(a) <= Pow2(b)
  {
    if a < b {
      Pow2Monotone(a, b - 1);
    }
  }

  lemma Pow2Of32()
    ensures Pow2(32) == U32_MODULUS
  {
    assert Pow2(4) == 16;
    Pow2Add(4, 4);
    Pow2Add(8, 8);
    Pow2Add(16, 16);
  }

  lemma Pow2Of128()
    ensures Pow2(128) == U128_MODULUS
  {
    Pow2Of32();
    Pow2Add(32, 32);
    Pow2Add(64, 64);
  }

  lemma MulAtLeast(a: int, m: int)
    requires a >= 1 && m > 0
    ensures a * m >= m
  {
  }

  lemma DivModBasics(x: nat, m: nat)
    requires m > 0
    ensures x / m >= 0 && 0 <= x % m < m && x == (x / m) * m + x % m
  {
  }

  /// Euclidean division has a unique quotient and remainder.
  lemma DivModUnique(x: int, m: int, q: int, r: int)
    requires m > 0 && 0 <= r < m && x == q * m + r
    ensures x / m == q && x % m == r
  {
    var q', r' := x / m, x % m;
    assert (q - q') * m == r' - r;
    if q > q' {
      MulAtLeast(q - q', m);
    } else if q < q' {
      MulAtLeast(q' - q, m);
    }
  }

  /// Dividing by 2^s is halving and then dividing by 2^(s-1).
  lemma Pow2DivMod(x: nat, s: nat)
    requires s > 0
    ensures x % Pow2(s) == x % 2 + 2 * ((x / 2) % Pow2(s - 1))
    ensures x / Pow2(s) == (x / 2) / Pow2(s - 1)
  {
    var p := Pow2(s - 1);
    var q := x / 2;
    assert x == (q / p) * (2 * p) + (2 * (q % p) + x % 2);
    DivModUnique(x, 2 * p, q / p, 2 * (q % p) + x % 2);
  }

  /// Rounding down to a multiple of m leaves no remainder.
  lemma RoundDownIdempotent(x: nat, m: nat)
    requires m > 0
    ensures x % m <= x && (x - x % m) % m == 0
  {
    DivModBasics(x, m);
    DivModUnique(x - x % m, m, x / m, 0);
  }

  /// Rounding down to a multiple of m twice is rounding down once.
  lemma RoundDownTwice(x: nat, n: nat, n2: nat, m: nat)
    requires m > 0 && n == x - x % m && n2 == n - n % m
    ensures n2 == n
  {
    RoundDownIdempotent(x, m);
  }

  lemma SmallMod(x: nat, m: nat)
    requires x < m
    ensures x % m == x && x / m == 0
  {
    DivModUnique(x, m, 0, x);
  }

  // ---------------------------------------------------------------------------
  // Bitwise operators against arithmetic

  /// Halving a number: the quotient and the remainder by 2.
  lemma Halves(k: nat)
    ensures (2 * k) % 2 == 0 && (2 * k) / 2 == k
    ensures (2 * k + 1) % 2 == 1 && (2 * k + 1) / 2 == k
  {
    DivModUnique(2 * k, 2, k, 0);
    DivModUnique(2 * k + 1, 2, k, 1);
  }

  /// A word below 2^w halves to a word below 2^(w-1).
  lemma HalfBelow(a: nat, w: nat)
    requires 0 < w && a < Pow2(w)
    ensures a / 2 < Pow2(w - 1) && a == 2 * (a / 2) + a % 2
  {
  }

  /// Masking with all ones keeps the word.
  lemma {:induction false} AndAllOnes(a: nat, w: nat)
    requires a < Pow2(w)
    ensures And(a, Pow2(w) - 1, w) == a
  {
    if w > 0 {
      var half := Pow2(w - 1);
      HalfBelow(a, w);
      Halves(half - 1);
      AndAllOnes(a / 2, w - 1);
    }
  }

  /// The low s bits of a word, read off bit by bit.
  function LowBits(a: nat, s: nat): (r: nat)
    ensures r <= a && r < Pow2(s)
    decreases s
  {
    if s == 0 then 0 else a % 2 + 2 * LowBits(a / 2, s - 1)
  }

  /// The low s bits are the remainder by 2^s.
  lemma {:induction false} LowBitsMod(a: nat, s: nat)
    ensures LowBits(a, s) == a % Pow2(s)
    decreases s
  {
    if s == 0 {
      DivModUnique(a, Pow2(0), a, 0);
    } else {
      LowBitsMod(a / 2, s - 1);
      Pow2DivMod(a, s);
    }
  }

  /// Masking with the top (w - s) bits keeps the address minus its low s bits.
  lemma AndHighMask(a: nat, s: nat, w: nat)
    requires s <= w && a < Pow2(w)
    ensures Pow2(s) <= Pow2(w)
    ensures And(a, Pow2(w) - Pow2(s), w) == a - a % Pow2(s)
  {
    HighMaskKeeps(a, s, w);
    LowBitsMod(a, s);
  }

  /// Masking a w-bit word with its top (w - s) bits clears its low s bits.
  lemma {:induction false} HighMaskKeeps(a: nat, s: nat, w: nat)
    requires s <= w && a < Pow2(w)
    ensures Pow2(s) <= Pow2(w)
    ensures And(a, Pow2(w) - Pow2(s), w) == a - LowBits(a, s)
    decreases s
  {
    if s == 0 {
      Pow2Monotone(0, w);
      AndAllOnes(a, w);
    } else {
      HalfBelow(a, w);
      HighMaskKeeps(a / 2, s - 1, w - 1);
      HighMaskKeepsStep(a, s, w);
    }
  }

  /// The step of `HighMaskKeeps`: from the halved word to the word.
  lemma HighMaskKeepsStep(a: nat, s: nat, w: nat)
    requires 0 < s <= w && a < Pow2(w)
    requires Pow2(s - 1) <= Pow2(w - 1)
    requires And(a / 2, Pow2(w - 1) - Pow2(s - 1), w - 1) == a / 2 - LowBits(a / 2, s - 1)
    ensures Pow2(s) <= Pow2(w)
    ensures And(a, Pow2(w) - Pow2(s), w) == a - LowBits(a, s)
  {
    Halves(Pow2(w - 1) - Pow2(s - 1));
  }

  /// Or with zero keeps the word.
  lemma {:induction false} OrZero(a: nat, w: nat)
    requires a < Pow2(w)
    ensures Or(a, 0, w) == a
  {
    if w > 0 {
      HalfBelow(a, w);
      OrZero(a / 2, w - 1);
    }
  }

  /// Setting the low s bits rounds the word up to the end of its 2^s block.
  lemma OrLowOnes(a: nat, s: nat, w: nat)
    requires s <= w && a < Pow2(w)
    ensures Or(a, Pow2(s) - 1, w) == a - a % Pow2(s) + Pow2(s) - 1
  {
    LowOnesFill(a, s, w);
    LowBitsMod(a, s);
  }

  /// Setting the low s bits of a word replaces them with ones.
  lemma {:induction false} LowOnesFill(a: nat, s: nat, w: nat)
    requires s <= w && a < Pow2(w)
    ensures Or(a, Pow2(s) - 1, w) == a - LowBits(a, s) + Pow2(s) - 1
    decreases s
  {
    if s == 0 {
      OrZero(a, w);
    } else {
      HalfBelow(a, w);
      LowOnesFill(a / 2, s - 1, w - 1);
      LowOnesFillStep(a, s, w);
    }
  }

  /// The step of `LowOnesFill`: from the halved word to the word.
  lemma LowOnesFillStep(a: nat, s: nat, w: nat)
    requires 0 < s <= w
    requires Or(a / 2, Pow2(s - 1) - 1, w - 1) == a / 2 - LowBits(a / 2, s - 1) + Pow2(s - 1) - 1
    ensures Or(a, Pow2(s) - 1, w) == a - LowBits(a, s) + Pow2(s) - 1
  {
    Halves(Pow2(s - 1) - 1);
  }

  /// `!a` is the complement with respect to the all-ones word.
  lemma {:induction false} NotComplement(a: nat, w: nat)
    requires a < Pow2(w)
    ensures Not(a, w) == Pow2(w) - 1 - a
  {
    if w > 0 {
      NotComplement(a / 2, w - 1);
    }
  }

  /// (x - 1) * y leaves x - y over when divided by x.
  lemma ShiftedOnesMod(x: int, y: int)
    requires 0 < y < x
    ensures ((x - 1) * y) % x == x - y
  {
    var p := (x - 1) * y;
    assert p == x * y - y by { MulSubOne(x, y); }
    assert (y - 1) * x == x * y - x by { MulSubOne(y, x); }
    DivModUnique(p, x, y - 1, x - y);
  }

  /// `MAX << s` is the word whose top (w - s) bits are set.
  lemma ShiftAllOnes(s: nat, w: nat)
    requires s < w
    ensures Pow2(s) < Pow2(w)
    ensures ShiftLeft(Pow2(w) - 1, s, w) == Pow2(w) - Pow2(s)
  {
    Pow2Monotone(s + 1, w);
    ShiftedOnesMod(Pow2(w), Pow2(s));
  }

  lemma MulSubOne(x: int, y: int)
    ensures (x - 1) * y == x * y - y
  {
  }

  /// `1 << s` is 2^s when s is below the width.
  lemma ShiftOne(s: nat, w: nat)
    requires s < w
    ensures Pow2(s) < Pow2(w)
    ensures ShiftLeft(1, s, w) == Pow2(s)
  {
    Pow2Monotone(s + 1, w);
    SmallMod(Pow2(s), Pow2(w));
  }

  /// The lowest bit of 2^w - 2^s and the word that remains above it.
  lemma HighMaskHalves(s: nat, w: nat)
    requires s <= w && 0 < w
    ensures Pow2(s) <= Pow2(w)
    ensures s == 0 ==> (Pow2(w) - Pow2(s)) % 2 == 1
    ensures s == 0 ==> (Pow2(w) - Pow2(s)) / 2 == Pow2(w - 1) - Pow2(0)
    ensures s > 0 ==> (Pow2(w) - Pow2(s)) % 2 == 0
    ensures s > 0 ==> (Pow2(w) - Pow2(s)) / 2 == Pow2(w - 1) - Pow2(s - 1)
  {
    Pow2Monotone(s, w);
    if s == 0 {
      Halves(Pow2(w - 1) - 1);
    } else {
      Pow2Monotone(s - 1, w - 1);
      Halves(Pow2(w - 1) - Pow2(s - 1));
    }
  }

  /// Bit i + 1 of m is bit i of m / 2.
  lemma BitOfHalf(m: nat, i: nat)
    ensures Bit(m, i + 1) == Bit(m / 2, i)
  {
    Pow2DivMod(m, i + 1);
  }

  /// The bits of 2^w - 2^s are exactly bits s..w-1.
  lemma {:induction false} HighMaskBits(s: nat, w: nat, i: nat)
    requires s <= w && i < w
    ensures Pow2(s) <= Pow2(w)
    ensures Bit(Pow2(w) - Pow2(s), i) <==> s <= i
  {
    HighMaskHalves(s, w);
    if i == 0 {
      assert (Pow2(w) - Pow2(s)) / Pow2(0) == Pow2(w) - Pow2(s);
    } else {
      var s' := if s == 0 then 0 else s - 1;
      HighMaskBits(s', w - 1, i - 1);
      HighMaskBitsStep(s, w, i);
    }
  }

  /// The step of `HighMaskBits`: bit i of the mask is bit i - 1 of its half.
  lemma HighMaskBitsStep(s: nat, w: nat, i: nat)
    requires s <= w && 0 < i < w
    requires var s' := if s == 0 then 0 else s - 1;
      Pow2(s') <= Pow2(w - 1) && (Bit(Pow2(w - 1) - Pow2(s'), i - 1) <==> s' <= i - 1)
    ensures Pow2(s) <= Pow2(w)
    ensures Bit(Pow2(w) - Pow2(s), i) <==> s <= i
  {
    HighMaskHalves(s, w);
    BitOfHalf(Pow2(w) - Pow2(s), i - 1);
  }

  /// x - x % m is the largest multiple of m not above x; two words share it
  /// exactly when they lie in the same block of m consecutive values.
  lemma SameBlock(x: nat, a: nat, m: nat)
    requires m > 0
    ensures a % m <= a
    ensures x - x % m == a - a % m <==> a - a % m <= x <= a - a % m + m - 1
  {
    var n := a - a % m;
    assert n == (a / m) * m;
    if n <= x <= n + m - 1 {
      DivModUnique(x, m, a / m, x - n);
    }
  }
}
