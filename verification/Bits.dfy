/**
 Bytes, 16-bit words and the bit operations of the C sources on them. A value is a natural
 number and `Bit` reads one binary digit of it, so that `|`, `&`, `~` and `<<` are the
 recursive functions below and every fact about them is a fact about single digits.
 */
module Bits {

  type Byte = x: int | 0 <= x < 0x100
  type Word = x: int | 0 <= x < 0x10000

  function Hi(w: Word): Byte {
    w / 0x100
  }

  function Lo(w: Word): Byte {
    w % 0x100
  }

  function Join(hi: Byte, lo: Byte): Word {
    hi * 0x100 + lo
  }

  lemma JoinParts(w: Word)
    ensures Join(Hi(w), Lo(w)) == w
  {
  }

  // ---------- single digits ----------

  predicate Bit(x: nat, k: nat) {
    if k == 0 then x % 2 == 1 else Bit(x / 2, k - 1)
  }

  function Or(a: nat, b: nat): nat {
    if a == 0 then b
    else if b == 0 then a
    else (if a % 2 == 1 || b % 2 == 1 then 1 else 0) + 2 * Or(a / 2, b / 2)
  }

  function And(a: nat, b: nat): nat {
    if a == 0 || b == 0 then 0
    else (if a % 2 == 1 && b % 2 == 1 then 1 else 0) + 2 * And(a / 2, b / 2)
  }

  function Shl(x: nat, k: nat): nat {
    if k == 0 then x else 2 * Shl(x, k - 1)
  }

  function Complement(w: Word): Word {
    0xFFFF - w
  }

  lemma {:induction false} BitZero(k: nat)
    ensures !Bit(0, k)
  {
    if k > 0 { BitZero(k - 1); }
  }

  lemma {:induction false} OrBit(a: nat, b: nat, k: nat)
    ensures Bit(Or(a, b), k) == (Bit(a, k) || Bit(b, k))
    decreases k
  {
    BitZero(k);
    if a != 0 && b != 0 && k > 0 {
      assert Or(a, b) / 2 == Or(a / 2, b / 2);
      OrBit(a / 2, b / 2, k - 1);
    }
  }

  lemma {:induction false} AndBit(a: nat, b: nat, k: nat)
    ensures Bit(And(a, b), k) == (Bit(a, k) && Bit(b, k))
    decreases k
  {
    BitZero(k);
    if a != 0 && b != 0 && k > 0 {
      assert And(a, b) / 2 == And(a / 2, b / 2);
      AndBit(a / 2, b / 2, k - 1);
    }
  }

  lemma {:induction false} ShlBit(x: nat, s: nat, k: nat)
    ensures Bit(Shl(x, s), k) == (s <= k && Bit(x, k - s))
    decreases k
  {
    if s > 0 && k > 0 {
      assert Shl(x, s) / 2 == Shl(x, s - 1);
      ShlBit(x, s - 1, k - 1);
    }
  }

  lemma {:induction false} ShlZero(k: nat)
    ensures Shl(0, k) == 0
  {
    if k > 0 { ShlZero(k - 1); }
  }

  // ---------- the low digits of a byte, least significant first ----------

  /** How many bytes hold `nb` bits: (nb / 8) + ((nb % 8) ? 1 : 0). */
  function ByteCount(nb: nat): nat {
    nb / 8 + if nb % 8 != 0 then 1 else 0
  }

  /** The number whose binary digits are `bits`, least significant first. */
  function FromBits(bits: seq<bool>): nat {
    if bits == [] then 0 else (if bits[0] then 1 else 0) + 2 * FromBits(bits[1..])
  }

  lemma {:induction false} FromBitsBit(bits: seq<bool>, k: nat)
    ensures Bit(FromBits(bits), k) == (k < |bits| && bits[k])
    decreases k
  {
    if bits == [] {
      BitZero(k);
    } else if k > 0 {
      assert FromBits(bits) / 2 == FromBits(bits[1..]);
      FromBitsBit(bits[1..], k - 1);
    }
  }

  lemma {:induction false} FromBitsIsByte(bits: seq<bool>)
    requires |bits| <= 8
    ensures FromBits(bits) < Shl(1, |bits|) <= 0x100
  {
    FromBitsBound(bits);
    ShlMonotone(|bits|, 8);
    assert Shl(1, 8) == 0x100 by { ShlEight(); }
  }

  lemma {:induction false} FromBitsBound(bits: seq<bool>)
    ensures FromBits(bits) < Shl(1, |bits|)
  {
    if bits != [] { FromBitsBound(bits[1..]); }
  }

  lemma ShlEight()
    ensures Shl(1, 8) == 0x100
  {
    assert Shl(1, 4) == 16;
  }

  lemma ShlSixteen()
    ensures Shl(1, 16) == 0x10000
  {
    assert Shl(1, 4) == 0x10;
    assert Shl(1, 8) == 0x100;
    assert Shl(1, 12) == 0x1000;
  }

  lemma {:induction false} ShlMonotone(j: nat, k: nat)
    requires j <= k
    ensures Shl(1, j) <= Shl(1, k)
    decreases k
  {
    if j < k { ShlMonotone(j, k - 1); }
  }

  /** Setting the next digit with `|= 1 << n`, the step both packing loops make. */
  lemma {:induction false} FromBitsSnoc(bits: seq<bool>, b: bool)
    ensures FromBits(bits + [b]) == if b then Or(FromBits(bits), Shl(1, |bits|)) else FromBits(bits)
  {
    if bits == [] {
      assert bits + [b] == [b];
    } else {
      FromBitsSnoc(bits[1..], b);
      assert (bits + [b])[1..] == bits[1..] + [b];
    }
  }

  // ---------- words ----------

  lemma {:induction false} ComplementBitWithin(n: nat, x: nat, y: nat, k: nat)
    requires k < n && x + y == Shl(1, n) - 1
    ensures Bit(x, k) == !Bit(y, k)
    decreases n
  {
    assert x % 2 + y % 2 == 1;
    if k > 0 {
      assert x / 2 + y / 2 == Shl(1, n - 1) - 1;
      ComplementBitWithin(n - 1, x / 2, y / 2, k - 1);
    }
  }

  lemma ComplementBit(w: Word, k: nat)
    requires k < 16
    ensures Bit(Complement(w), k) == !Bit(w, k)
  {
    ShlSixteen();
    ComplementBitWithin(16, Complement(w), w, k);
  }

  lemma {:induction false} AndBound(a: nat, b: nat)
    ensures And(a, b) <= a
    decreases a
  {
    if a != 0 && b != 0 { AndBound(a / 2, b / 2); }
  }

  lemma {:induction false} OrBound(a: nat, b: nat, n: nat)
    requires a < Shl(1, n) && b < Shl(1, n)
    ensures Or(a, b) < Shl(1, n)
    decreases n
  {
    if a != 0 && b != 0 { OrBound(a / 2, b / 2, n - 1); }
  }

  /** `|` of a value below a shifted one is their sum. */
  lemma {:induction false} OrDisjoint(a: nat, d: nat, k: nat)
    requires a < Shl(1, k)
    ensures Or(a, Shl(d, k)) == a + Shl(d, k)
    decreases k
  {
    if k == 0 {
    } else if a == 0 {
    } else if Shl(d, k) == 0 {
    } else {
      OrDisjoint(a / 2, d, k - 1);
      assert Shl(d, k) / 2 == Shl(d, k - 1) && Shl(d, k) % 2 == 0;
    }
  }
}
