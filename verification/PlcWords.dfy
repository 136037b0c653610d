/**
 32- and 64-bit words as core/modbus.cpp handles them: sixteen bits are read with a shift and a
 mask, and written by masking out their place and or-ing them in.
 */
module PlcWords {
  import opened Bits

  type DWord = x: int | 0 <= x < 0x1_0000_0000
  type LWord = x: int | 0 <= x < 0x1_0000_0000_0000_0000

  function Shr(x: nat, k: nat): nat {
    if k == 0 then x else Shr(x / 2, k - 1)
  }

  /** (v >> shift) & 0xffff */
  function Part(v: nat, shift: nat): (w: Word) {
    AndBoundRight(Shr(v, shift), 0xFFFF);
    And(Shr(v, shift), 0xFFFF)
  }

  /** (v & mask) | (w << shift) */
  function Replace(v: nat, mask: nat, w: Word, shift: nat): nat {
    Or(And(v, mask), Shl(w, shift))
  }

  // ---------- digits ----------

  lemma {:induction false} AndBoundRight(a: nat, b: nat)
    ensures And(a, b) <= b
    decreases b
  {
    if a != 0 && b != 0 { AndBoundRight(a / 2, b / 2); }
  }

  lemma {:induction false} ShrBit(x: nat, s: nat, k: nat)
    ensures Bit(Shr(x, s), k) == Bit(x, s + k)
    decreases s
  {
    if s > 0 { ShrBit(x / 2, s - 1, k); }
  }

  lemma {:induction false} BitAbove(n: nat, x: nat, k: nat)
    requires x < Shl(1, n) && n <= k
    ensures !Bit(x, k)
    decreases n
  {
    if n == 0 { BitZero(k); } else { BitAbove(n - 1, x / 2, k - 1); }
  }

  lemma {:induction false} OnesBit(n: nat, k: nat)
    ensures Shl(1, n) >= 1 && Bit(Shl(1, n) - 1, k) == (k < n)
    decreases n
  {
    if n == 0 {
      BitZero(k);
    } else {
      OnesBit(n - 1, if k > 0 then k - 1 else 0);
      assert (Shl(1, n) - 1) / 2 == Shl(1, n - 1) - 1;
    }
  }

  lemma {:induction false} SameBits(n: nat, x: nat, y: nat)
    requires x < Shl(1, n) && y < Shl(1, n)
    requires forall k: nat :: k < n ==> Bit(x, k) == Bit(y, k)
    ensures x == y
    decreases n
  {
    if n > 0 {
      forall k: nat | k < n - 1 ensures Bit(x / 2, k) == Bit(y / 2, k) {
        assert Bit(x, k + 1) == Bit(y, k + 1);
      }
      SameBits(n - 1, x / 2, y / 2);
      assert Bit(x, 0) == Bit(y, 0);
    }
  }

  lemma PartBit(v: nat, shift: nat, k: nat)
    requires k < 16
    ensures Bit(Part(v, shift), k) == Bit(v, shift + k)
  {
    AndBit(Shr(v, shift), 0xFFFF, k);
    ShrBit(v, shift, k);
    ShlSixteen();
    OnesBit(16, k);
  }

  // ---------- writing one part ----------

  /** The mask has ones everywhere but in the sixteen places of the part. */
  predicate Masks(n: nat, mask: nat, shift: nat) {
    shift + 16 <= n && mask + Shl(0xFFFF, shift) == Shl(1, n) - 1
  }

  lemma ReplaceBit(n: nat, v: nat, mask: nat, w: Word, shift: nat, k: nat)
    requires Masks(n, mask, shift) && k < n
    ensures Bit(Replace(v, mask, w, shift), k) ==
            if shift <= k < shift + 16 then Bit(w, k - shift) else Bit(v, k)
  {
    OrBit(And(v, mask), Shl(w, shift), k);
    AndBit(v, mask, k);
    ShlBit(w, shift, k);
    ComplementBitWithin(n, mask, Shl(0xFFFF, shift), k);
    ShlBit(0xFFFF, shift, k);
    if shift <= k {
      ShlSixteen();
      OnesBit(16, k - shift);
      if k >= shift + 16 { BitAbove(16, w, k - shift); }
    }
  }

  lemma {:induction false} ShlSum(x: nat, a: nat, b: nat)
    ensures Shl(x, a + b) == Shl(Shl(x, a), b)
    decreases b
  {
    if b > 0 { ShlSum(x, a, b - 1); }
  }

  lemma {:induction false} ShlBelow(x: nat, y: nat, k: nat)
    requires x < y
    ensures Shl(x, k) < Shl(y, k)
    decreases k
  {
    if k > 0 { ShlBelow(x, y, k - 1); }
  }

  lemma ReplaceFits(n: nat, v: nat, mask: nat, w: Word, shift: nat)
    requires Masks(n, mask, shift) && v < Shl(1, n)
    ensures Replace(v, mask, w, shift) < Shl(1, n)
  {
    AndBound(v, mask);
    ShlSixteen();
    ShlBelow(w, Shl(1, 16), shift);
    ShlSum(1, 16, shift);
    ShlMonotone(16 + shift, n);
    OrBound(And(v, mask), Shl(w, shift), n);
  }

  /** Replacing one part sets that part and leaves every other part alone. */
  lemma ReplacePart(n: nat, v: nat, mask: nat, w: Word, shift: nat, other: nat)
    requires Masks(n, mask, shift) && other + 16 <= n
    requires other == shift || other + 16 <= shift || shift + 16 <= other
    ensures Part(Replace(v, mask, w, shift), other) == if other == shift then w else Part(v, other)
  {
    var r := Replace(v, mask, w, shift);
    var wanted := if other == shift then w else Part(v, other);
    forall k: nat | k < 16 ensures Bit(Part(r, other), k) == Bit(wanted, k) {
      PartBit(r, other, k);
      PartBit(v, other, k);
      ReplaceBit(n, v, mask, w, shift, other + k);
    }
    ShlSixteen();
    SameBits(16, Part(r, other), wanted);
  }

  // ---------- the parts are the base 65536 digits ----------

  lemma {:induction false} AndLow(x: nat, n: nat)
    ensures Shl(1, n) >= 1 && And(x, Shl(1, n) - 1) == x % Shl(1, n)
    decreases n
  {
    if n > 0 {
      AndLow(x / 2, n - 1);
      var m := Shl(1, n - 1);
      assert (Shl(1, n) - 1) / 2 == m - 1;
      ModTwice(x, m);
    }
  }

  lemma ModTwice(x: nat, m: nat)
    requires m >= 1
    ensures x % (2 * m) == 2 * ((x / 2) % m) + x % 2
  {
    var q, r := (x / 2) / m, (x / 2) % m;
    assert x == (2 * m) * q + (2 * r + x % 2);
    DivModUnique(x, 2 * m, q, 2 * r + x % 2);
  }

  lemma DivModUnique(x: nat, m: nat, q: nat, r: nat)
    requires m >= 1 && r < m && x == m * q + r
    ensures x / m == q && x % m == r
  {
    var d := x / m - q;
    assert x % m - r == -(m * d);
    MulAtLeast(m, d);
  }

  lemma MulAtLeast(m: int, d: int)
    requires m >= 1
    ensures d >= 1 ==> m * d >= m
    ensures d <= -1 ==> m * d <= -m
  {
  }

  lemma DivTwice(x: nat, m: nat)
    requires m >= 1
    ensures x / (2 * m) == (x / 2) / m
  {
    var q, r := (x / 2) / m, (x / 2) % m;
    assert x == (2 * m) * q + (2 * r + x % 2);
    DivModUnique(x, 2 * m, q, 2 * r + x % 2);
  }

  lemma {:induction false} ShrIsQuotient(x: nat, k: nat)
    ensures Shl(1, k) >= 1 && Shr(x, k) == x / Shl(1, k)
    decreases k
  {
    if k > 0 {
      ShrIsQuotient(x / 2, k - 1);
      DivTwice(x, Shl(1, k - 1));
    }
  }

  lemma PartIsDigit(v: nat, shift: nat)
    ensures Shl(1, shift) >= 1 && Part(v, shift) == (v / Shl(1, shift)) % 0x10000
  {
    ShrIsQuotient(v, shift);
    ShlSixteen();
    AndLow(Shr(v, shift), 16);
  }

  lemma Powers()
    ensures Shl(1, 0) == 1 && Shl(1, 16) == 0x10000 && Shl(1, 32) == 0x1_0000_0000
    ensures Shl(1, 48) == 0x1_0000_0000_0000 && Shl(1, 64) == 0x1_0000_0000_0000_0000
  {
    ShlSixteen();
    ShlTimes(1, 16); ShlTimes(0x10000, 16); ShlTimes(0x1_0000_0000, 16); ShlTimes(0x1_0000_0000_0000, 16);
    ShlSum(1, 16, 16); ShlSum(1, 32, 16); ShlSum(1, 48, 16);
  }

  lemma {:induction false} ShlTimes(x: nat, k: nat)
    ensures Shl(x, k) == x * Shl(1, k)
  {
    if k > 0 { ShlTimes(x, k - 1); }
  }

  function Value32(high: Word, low: Word): DWord {
    high * 0x10000 + low
  }

  function Value64(w0: Word, w1: Word, w2: Word, w3: Word): LWord {
    Value32(w0, w1) * 0x1_0000_0000 + Value32(w2, w3)
  }

  /** A 32-bit word is the big-endian number of its two parts. */
  lemma DWordParts(v: DWord)
    ensures v == Value32(Part(v, 16), Part(v, 0))
  {
    hide *;
    Powers();
    PartIsDigit(v, 16);
    PartIsDigit(v, 0);
    ValueDigits(v);
  }

  lemma ValueDigits(v: DWord)
    ensures v / 0x10000 < 0x10000 && v == Value32(v / 0x10000, v % 0x10000)
  {
  }

  lemma LowDigits(h: nat, l: DWord)
    ensures var v := h * 0x1_0000_0000 + l;
      v / 0x10000 % 0x10000 == l / 0x10000 && v % 0x10000 == l % 0x10000
  {
    var q := h * 0x10000 + l / 0x10000;
    assert h * 0x1_0000_0000 + l == 0x10000 * q + l % 0x10000;
    DivModUnique(h * 0x1_0000_0000 + l, 0x10000, q, l % 0x10000);
    DivModUnique(q, 0x10000, h, l / 0x10000);
  }

  lemma HighDigit(h: DWord, l: DWord)
    ensures (h * 0x1_0000_0000 + l) / 0x1_0000_0000_0000 == h / 0x10000
  {
    var r := h % 0x10000 * 0x1_0000_0000 + l;
    DivModUnique(h * 0x1_0000_0000 + l, 0x1_0000_0000_0000, h / 0x10000, r);
  }

  /** A 64-bit word is the big-endian number of its four parts. */
  lemma LWordParts(v: LWord)
    ensures v == Value64(Part(v, 48), Part(v, 32), Part(v, 16), Part(v, 0))
  {
    hide Shl, Part, Value32;
    Powers();
    PartIsDigit(v, 48);
    PartIsDigit(v, 32);
    PartIsDigit(v, 16);
    PartIsDigit(v, 0);
    var h, l := v / 0x1_0000_0000, v % 0x1_0000_0000;
    LowDigits(h, l);
    HighDigit(h, l);
    ValueDigits(h);
    ValueDigits(l);
  }

  /** The six masks of WriteRegister. */
  lemma MasksOfSource()
    ensures Masks(32, 0x0000_FFFF, 16) && Masks(32, 0xFFFF_0000, 0)
    ensures Masks(64, 0x0000_FFFF_FFFF_FFFF, 48) && Masks(64, 0xFFFF_0000_FFFF_FFFF, 32)
    ensures Masks(64, 0xFFFF_FFFF_0000_FFFF, 16) && Masks(64, 0xFFFF_FFFF_FFFF_0000, 0)
  {
    Powers();
    ShlTimes(0xFFFF, 0); ShlTimes(0xFFFF, 16); ShlTimes(0xFFFF, 32); ShlTimes(0xFFFF, 48);
  }
}
