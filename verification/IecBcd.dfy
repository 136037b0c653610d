/**
 Binary coded decimal in 64-bit words: the test, the two conversions, and their being inverse.
 Every operation of the loops is the wrapping one; none of them wraps.
 */
module IecBcd {
  import opened Bits

  const TWO64 := 0x1_0000_0000_0000_0000

  function Pow10(k: nat): nat {
    if k == 0 then 1 else 10 * Pow10(k - 1)
  }

  function Pow16(k: nat): nat {
    if k == 0 then 1 else 16 * Pow16(k - 1)
  }

  /** Every nibble is a decimal digit. */
  predicate IsBcd(w: nat) {
    w == 0 || (w % 16 <= 9 && IsBcd(w / 16))
  }

  /** The number whose nibbles are those of `w` read in base ten. */
  function Decode(w: nat): nat {
    if w == 0 then 0 else w % 16 + 10 * Decode(w / 16)
  }

  function Encode(n: nat): nat {
    if n == 0 then 0 else n % 10 + 16 * Encode(n / 10)
  }

  // ---------- the conversions are inverse ----------

  lemma {:induction false} EncodeThenDecode(n: nat)
    ensures IsBcd(Encode(n)) && Decode(Encode(n)) == n
  {
    if n > 0 {
      EncodeThenDecode(n / 10);
      assert Encode(n) % 16 == n % 10 && Encode(n) / 16 == Encode(n / 10);
    }
  }

  /** The opposite trip is the identity exactly on binary coded decimals. */
  lemma {:induction false} DecodeThenEncodeIff(w: nat)
    ensures Encode(Decode(w)) == w <==> IsBcd(w)
  {
    if IsBcd(w) { DecodeThenEncode(w); } else { EncodeThenDecode(Decode(w)); }
  }

  lemma {:induction false} DecodeThenEncode(w: nat)
    requires IsBcd(w)
    ensures Encode(Decode(w)) == w
  {
    if w > 0 {
      DecodeThenEncode(w / 16);
      assert Decode(w) % 10 == w % 16 && Decode(w) / 10 == Decode(w / 16);
    }
  }

  /** Digit `k` of a number in a base, the lowest first. */
  function Digit(x: nat, base: nat, k: nat): nat
    requires base >= 2
    decreases k
  {
    if k == 0 then x % base else Digit(x / base, base, k - 1)
  }

  /** Encoding moves every decimal digit into the nibble of the same place. */
  lemma {:induction false} NibblesAreDigits(n: nat, k: nat)
    ensures Digit(Encode(n), 16, k) == Digit(n, 10, k)
    decreases k
  {
    if k > 0 {
      assert Encode(n) / 16 == Encode(n / 10);
      NibblesAreDigits(n / 10, k - 1);
    }
  }

  lemma {:induction false} PowersPositive(k: nat)
    ensures Pow10(k) >= 1 && Pow16(k) >= 1
  {
    if k > 0 { PowersPositive(k - 1); }
  }

  /** Sixteen digits fit a 64-bit word and sixteen nibbles hold no more than sixteen digits. */
  lemma {:induction false} EncodeFits(n: nat, k: nat)
    requires n < Pow10(k)
    ensures Encode(n) < Pow16(k)
    decreases k
  {
    PowersPositive(k);
    if n > 0 { EncodeFits(n / 10, k - 1); }
  }

  lemma {:induction false} DecodeFits(w: nat, k: nat)
    requires w < Pow16(k)
    ensures 3 * Decode(w) <= 5 * (Pow10(k) - 1) && (IsBcd(w) ==> Decode(w) < Pow10(k))
    decreases k
  {
    PowersPositive(k);
    if w > 0 { DecodeFits(w / 16, k - 1); }
  }

  lemma SixteenDigits()
    ensures Pow16(16) == TWO64 && Pow10(16) == 10_000_000_000_000_000
  {
    assert Pow16(4) == 0x1_0000 && Pow10(4) == 10_000;
    assert Pow16(8) == 0x1_0000_0000 && Pow10(8) == 100_000_000;
    assert Pow16(12) == 0x1_0000_0000_0000 && Pow10(12) == 1_000_000_000_000;
  }

  // ---------- the loops ----------

  /** __test_bcd: true for a word that is not binary coded decimal. */
  method TestBcd(input: nat) returns (bad: bool)
    requires input < TWO64
    ensures bad == !IsBcd(input)
  {
    var w: nat := input;
    while w != 0
      invariant IsBcd(w) == IsBcd(input)
    {
      if w % 16 > 9 {
        return true;
      }
      w := w / 16;
    }
    bad := false;
  }

  /** The digits still to be read, at the place value of the first of them. */
  function DecodeAt(w: nat, factor: nat): nat {
    if w == 0 then 0 else w % 16 * factor + DecodeAt(w / 16, 10 * factor)
  }

  lemma {:induction false} DecodeAtScales(w: nat, factor: nat)
    ensures DecodeAt(w, factor) == factor * Decode(w)
    decreases w
  {
    if w > 0 {
      DecodeAtScales(w / 16, 10 * factor);
      Distribute(factor, w % 16, Decode(w / 16));
    }
  }

  lemma Distribute(f: nat, d: nat, v: nat)
    ensures f * (d + 10 * v) == d * f + (10 * f) * v
  {
  }

  lemma PlaceStep(w: nat, factor: nat, k: nat)
    requires w > 0 && 1 <= k <= 16 && w < Pow16(16 - k) && factor == Pow10(k)
    ensures k < 16 && w / 16 < Pow16(16 - (k + 1))
    ensures Wrap(factor * 10) == factor * 10 == Pow10(k + 1) <= Pow10(16)
  {
    PowersRise(k + 1, 16);
    SixteenDigits();
  }

  /** What a 64-bit word keeps of a sum or product. */
  function Wrap(x: nat): nat {
    x % TWO64
  }

  function DigitAt(w: nat, factor: nat): nat {
    w % 16 * factor
  }

  lemma DigitStep(w: nat, factor: nat, res: nat, total: nat)
    requires w > 0 && res + DecodeAt(w, factor) == total < TWO64
    ensures Wrap(res + DigitAt(w, factor)) + DecodeAt(w / 16, factor * 10) == total
  {
    hide DigitAt, DecodeAt;
    NextDigit(w, factor);
    assert factor * 10 == 10 * factor;
  }

  lemma NextDigit(w: nat, factor: nat)
    requires w > 0
    ensures DecodeAt(w, factor) == DigitAt(w, factor) + DecodeAt(w / 16, 10 * factor)
  {
  }

  /** __bcd_to_uint, on any word. */
  method BcdToUint(input: nat) returns (res: nat)
    requires input < TWO64
    ensures res == Decode(input)
  {
    SixteenDigits();
    DecodeFits(input, 16);
    assert Decode(input) < TWO64;
    var w: nat, factor: nat := input, 10;
    res := w % 16;
    ghost var k := 1;
    w := w / 16;
    DecodeAtScales(w, 10);
    while w != 0
      invariant 1 <= k <= 16 && w < Pow16(16 - k) && factor == Pow10(k) <= Pow10(16)
      invariant res + DecodeAt(w, factor) == Decode(input)
    {
      hide Decode, DecodeAt, Pow10, Pow16, DigitAt, Wrap;
      PlaceStep(w, factor, k);
      DigitStep(w, factor, res, Decode(input));
      res := Wrap(res + DigitAt(w, factor));
      factor := Wrap(factor * 10);
      k := k + 1;
      w := w / 16;
    }
  }

  lemma {:induction false} PowersRise(j: nat, k: nat)
    requires j <= k
    ensures Pow10(j) <= Pow10(k)
    decreases k
  {
    if j < k { PowersRise(j, k - 1); }
  }

  /** `<<` on a 64-bit word, which C defines below 64 only. */
  function ShiftLeft(x: nat, k: nat): nat
    requires k < 64
  {
    Shl(x, k) % TWO64
  }

  /** __uint_to_bcd: from the seventeenth digit on the shift would leave the word. */
  method UintToBcd(input: nat) returns (res: nat)
    requires input < Pow10(16)
    ensures res == Encode(input) < TWO64
  {
    SixteenDigits();
    EncodeFits(input, 16);
    var n: nat := input;
    res := n % 10;
    var shift := 4;
    n := n / 10;
    ShlFour(Encode(n));
    while n != 0
      invariant 4 <= shift <= 64 && shift % 4 == 0 && n < Pow10(16 - shift / 4)
      invariant res < Shl(1, shift) && res + Shl(Encode(n), shift) == Encode(input)
    {
      hide Or, Shl, Encode, Pow10;
      EncodeStep(res, n, shift);
      res := Or(res, ShiftLeft(n % 10, shift));
      shift := shift + 4;
      n := n / 10;
    }
    ShlZero(shift);
  }

  lemma EncodeStep(res: nat, n: nat, shift: nat)
    requires n > 0 && 4 <= shift <= 64 && shift % 4 == 0 && n < Pow10(16 - shift / 4) && res < Shl(1, shift)
    ensures shift <= 60 && n / 10 < Pow10(16 - (shift + 4) / 4)
    ensures var res' := Or(res, ShiftLeft(n % 10, shift));
            res' < Shl(1, shift + 4) && res' + Shl(Encode(n / 10), shift + 4) == res + Shl(Encode(n), shift)
  {
    hide Or, Shl;
    var d := n % 10;
    ShlAdd(d, 16 * Encode(n / 10), shift);
    ShlSixteenTimes(Encode(n / 10), shift);
    OrDisjoint(res, d, shift);
    DigitFits(res, d, shift);
  }

  lemma {:induction false} ShlAdd(a: nat, b: nat, k: nat)
    ensures Shl(a + b, k) == Shl(a, k) + Shl(b, k)
  {
    if k > 0 { ShlAdd(a, b, k - 1); }
  }

  lemma {:induction false} ShlSixteenTimes(x: nat, k: nat)
    ensures Shl(16 * x, k) == Shl(x, k + 4)
  {
    if k > 0 {
      ShlSixteenTimes(x, k - 1);
    } else {
      ShlFour(x);
    }
  }

  lemma ShlFour(x: nat)
    ensures Shl(x, 4) == 16 * x && Shl(1, 4) == 16
  {
    assert Shl(x, 1) == 2 * x;
    assert Shl(x, 2) == 4 * x;
    assert Shl(x, 3) == 8 * x;
  }

  /** One more digit still fits below the next shift, and below the width of the word. */
  lemma DigitFits(res: nat, d: nat, shift: nat)
    requires d <= 9 && shift <= 60 && res < Shl(1, shift)
    ensures res + Shl(d, shift) < Shl(1, shift + 4) && Shl(d, shift) < TWO64
  {
    ShlAtMost(d, 9, shift);
    ShlAdd(4, 5, shift);
    ShlSixteenTimes(1, shift);
    ShlAdd(9, 1, shift);
    ShlAdd(10, 6, shift);
    ShlMonotone(shift + 4, 64);
    assert Shl(1, 64) == TWO64 by {
      assert Shl(1, 16) == 0x1_0000 by { ShlSixteen(); }
      Shl64();
    }
  }

  lemma Shl64()
    ensures Shl(1, 64) == TWO64
  {
    assert Shl(1, 8) == 0x100;
    assert Shl(1, 16) == 0x1_0000;
    assert Shl(1, 24) == 0x100_0000;
    assert Shl(1, 32) == 0x1_0000_0000;
    assert Shl(1, 40) == 0x100_0000_0000;
    assert Shl(1, 48) == 0x1_0000_0000_0000;
    assert Shl(1, 56) == 0x100_0000_0000_0000;
  }

  lemma {:induction false} ShlAtMost(a: nat, b: nat, k: nat)
    requires a <= b
    ensures Shl(a, k) <= Shl(b, k)
  {
    if k > 0 { ShlAtMost(a, b, k - 1); }
  }
}
