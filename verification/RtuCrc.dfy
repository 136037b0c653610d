/**
 The frame check of Modbus RTU. `Crc16` is the table-driven computation of modbus-rtu.c,
 `Shift8` the eight-step loop of pixtend.cpp, and the register of the former is the register
 of the latter with its bytes swapped.

 The error-detection results rest on one fact: feeding at most 16 message bits into the
 register is the same as XOR-ing them in at once and shifting, and a shift loses nothing.
 */
module RtuCrc {
  import opened Bits

  // ---------- the bitwise reference ----------

  // The solver decides facts about one of these operators at a time; the proofs below `hide`
  // the others.

  function Xor(x: bv16, y: bv16): bv16 {
    x ^ y
  }

  function Half(x: bv16): bv16 {
    x >> 1
  }

  predicate Odd(x: bv16) {
    x & 1 == 1
  }

  /** One step of the loop of pixtend.cpp. */
  function Shift(crc: bv16): bv16 {
    if Odd(crc) then Xor(Half(crc), 0xA001) else Half(crc)
  }

  function Shift8(crc: bv16): bv16 {
    Shift(Shift(Shift(Shift(Shift(Shift(Shift(Shift(crc))))))))
  }

  /** The byte goes into the low half of the register. */
  function Mix(crc: bv16, b: bv8): bv16 {
    crc ^ b as bv16
  }

  function StepBits(crc: bv16, b: bv8): bv16 {
    Shift8(Mix(crc, b))
  }

  /** The eight bits of a byte: counting up to `b` reaches the octet whose value is `b`. */
  function Octet(b: Byte): bv8 {
    if b == 0 then 0 else Octet(b - 1) + 1
  }

  function Step(crc: bv16, b: Byte): bv16 {
    StepBits(crc, Octet(b))
  }

  function Fold(crc: bv16, msg: seq<Byte>): bv16
    decreases |msg|
  {
    if msg == [] then crc else Fold(Step(crc, msg[0]), msg[1..])
  }

  /** crc16_calc: the byte is XOR-ed into the low half, then eight shifts. */
  method Crc16Calc(crc: bv16, data: bv8) returns (r: bv16)
    ensures r == StepBits(crc, data)
  {
    r := Mix(crc, data);
    var i := 0;
    while i < 8
      invariant 0 <= i <= 8
      invariant Shifts(r, 8 - i) == Shifts(Mix(crc, data), 8)
    {
      if Odd(r) {
        r := Xor(Half(r), 0xA001);
      } else {
        r := Half(r);
      }
      i := i + 1;
    }
    ShiftsEight(Mix(crc, data));
  }

  function Shifts(crc: bv16, n: nat): bv16
    decreases n
  {
    if n == 0 then crc else Shifts(Shift(crc), n - 1)
  }

  lemma ShiftsEight(crc: bv16)
    ensures Shifts(crc, 8) == Shift8(crc)
  {
    var four := Shift(Shift(Shift(Shift(crc))));
    assert Shifts(crc, 6) == Shifts(Shift(Shift(crc)), 4);
    assert Shifts(crc, 8) == Shifts(Shift(Shift(crc)), 6) == Shifts(four, 4);
  }

  // ---------- the table-driven form ----------

  /** table_crc_hi and table_crc_lo, sixteen entries to a row, in the order of the source. */
  function RowHi(row: bv128): bv128 {
    match row
    case 0 => 0x00C18140_01C08041_01C08041_00C18140
    case 1 => 0x01C08041_00C18140_00C18140_01C08041
    case 2 => 0x01C08041_00C18140_00C18140_01C08041
    case 3 => 0x00C18140_01C08041_01C08041_00C18140
    case 4 => 0x01C08041_00C18140_00C18140_01C08041
    case 5 => 0x00C18140_01C08041_01C08041_00C18140
    case 6 => 0x00C18140_01C08041_01C08041_00C18140
    case 7 => 0x01C08041_00C18140_00C18140_01C08041
    case 8 => 0x01C08041_00C18140_00C18140_01C08041
    case 9 => 0x00C18140_01C08041_01C08041_00C18140
    case 10 => 0x00C18140_01C08041_01C08041_00C18140
    case 11 => 0x01C08041_00C18140_00C18140_01C08041
    case 12 => 0x00C18140_01C08041_01C08041_00C18140
    case 13 => 0x01C08041_00C18140_00C18140_01C08041
    case 14 => 0x01C08041_00C18140_00C18140_01C08041
    case _ => 0x00C18140_01C08041_01C08041_00C18140
  }

  function RowLo(row: bv128): bv128 {
    match row
    case 0 => 0x00C0C101_C30302C2_C60607C7_05C5C404
    case 1 => 0xCC0C0DCD_0FCFCE0E_0ACACB0B_C90908C8
    case 2 => 0xD81819D9_1BDBDA1A_1EDEDF1F_DD1D1CDC
    case 3 => 0x14D4D515_D71716D6_D21213D3_11D1D010
    case 4 => 0xF03031F1_33F3F232_36F6F737_F53534F4
    case 5 => 0x3CFCFD3D_FF3F3EFE_FA3A3BFB_39F9F838
    case 6 => 0x28E8E929_EB2B2AEA_EE2E2FEF_2DEDEC2C
    case 7 => 0xE42425E5_27E7E626_22E2E323_E12120E0
    case 8 => 0xA06061A1_63A3A262_66A6A767_A56564A4
    case 9 => 0x6CACAD6D_AF6F6EAE_AA6A6BAB_69A9A868
    case 10 => 0x78B8B979_BB7B7ABA_BE7E7FBF_7DBDBC7C
    case 11 => 0xB47475B5_77B7B676_72B2B373_B17170B0
    case 12 => 0x50909151_93535292_96565797_55959454
    case 13 => 0x9C5C5D9D_5F9F9E5E_5A9A9B5B_99595898
    case 14 => 0x88484989_4B8B8A4A_4E8E8F4F_8D4D4C8C
    case _ => 0x44848545_87474686_82424383_41818040
  }

  function Entry(row: bv128, column: bv128): bv8
    requires column < 16
  {
    ((row >> ((15 - column) << 3)) & 0xFF) as bv8
  }

  function TableHi(i: bv8): bv8 {
    var j := i as bv128;
    Entry(RowHi(j >> 4), j & 0xF)
  }

  function TableLo(i: bv8): bv8 {
    var j := i as bv128;
    Entry(RowLo(j >> 4), j & 0xF)
  }

  function Low(w: bv16): bv8 {
    (w & 0xFF) as bv8
  }

  function High(w: bv16): bv8 {
    (w >> 8) as bv8
  }

  lemma TableHiIsShift8(i: bv8)
    ensures TableHi(i) == Low(Shift8(i as bv16))
  {
  }

  lemma TableLoLowHalf(i: bv8)
    requires i < 128
    ensures TableLo(i) == High(Shift8(i as bv16))
  {
  }

  lemma TableLoThirdQuarter(i: bv8)
    requires 128 <= i < 192
    ensures TableLo(i) == High(Shift8(i as bv16))
  {
  }

  lemma TableLoLastQuarter(i: bv8)
    requires 192 <= i
    ensures TableLo(i) == High(Shift8(i as bv16))
  {
  }

  function Pair(high: bv8, low: bv8): bv16 {
    (high as bv16 << 8) | low as bv16
  }

  // ---------- bytes as octets ----------

  lemma Increment(x: bv8)
    requires x as int < 255
    ensures (x + 1) as int == x as int + 1
  {
  }

  lemma {:induction false} OctetValue(b: Byte)
    ensures Octet(b) as int == b
  {
    if b > 0 {
      OctetValue(b - 1);
      Increment(Octet(b - 1));
    }
  }

  lemma SameValue(x: bv8, y: bv8)
    requires x as int == y as int
    ensures x == y
  {
  }

  lemma OctetOfValue(x: bv8)
    ensures Octet(x as int) == x
  {
    OctetValue(x as int);
    SameValue(Octet(x as int), x);
  }

  // ---------- bit streams ----------

  function Digit(b: bool): bv16 {
    if b then 1 else 0
  }

  /** Feeding the register one bit at a time, as the line carries them. */
  function FoldBits(crc: bv16, bits: seq<bool>): bv16
    decreases |bits|
  {
    if bits == [] then crc else FoldBits(Shift(Xor(crc, Digit(bits[0]))), bits[1..])
  }

  function BitsOf(x: bv8): (bits: seq<bool>)
    ensures |bits| == 8
  {
    [x & 1 != 0, x & 2 != 0, x & 4 != 0, x & 8 != 0, x & 16 != 0, x & 32 != 0, x & 64 != 0, x & 128 != 0]
  }

  /** The bits of a message in the order they are sent, least significant bit of each byte first. */
  function BitStream(msg: seq<Byte>): (bits: seq<bool>)
    ensures |bits| == 8 * |msg|
  {
    if msg == [] then [] else BitsOf(Octet(msg[0])) + BitStream(msg[1..])
  }

  /** Up to sixteen bits as a register value, first bit lowest. */
  function Put(digit: bv16, rest: bv16): bv16 {
    digit | (rest << 1)
  }

  function Packed(bits: seq<bool>): bv16 {
    if bits == [] then 0 else Put(Digit(bits[0]), Packed(bits[1..]))
  }

  predicate IsDigit(d: bv16) {
    d & 1 == d
  }

  lemma DigitIsDigit(b: bool)
    ensures IsDigit(Digit(b))
  {
  }

  predicate TopClear(x: bv16) {
    x & 0x8000 == 0
  }

  predicate Within(x: bv16, mask: bv16) {
    x & mask == x
  }

  function Ones(n: nat): bv16
    requires n <= 15
  {
    match n
    case 0 => 0 case 1 => 0x1 case 2 => 0x3 case 3 => 0x7
    case 4 => 0xF case 5 => 0x1F case 6 => 0x3F case 7 => 0x7F
    case 8 => 0xFF case 9 => 0x1FF case 10 => 0x3FF case 11 => 0x7FF
    case 12 => 0xFFF case 13 => 0x1FFF case 14 => 0x3FFF case 15 => 0x7FFF
  }

  lemma OnesNext(n: nat)
    requires n <= 14
    ensures Ones(n + 1) == Put(1, Ones(n))
  {
  }

  lemma PutWithin(d: bv16, rest: bv16, mask: bv16)
    requires IsDigit(d) && Within(rest, mask)
    ensures Within(Put(d, rest), Put(1, mask))
  {
  }

  lemma WithinOnes(n: nat, x: bv16)
    requires n <= 15 && Within(x, Ones(n))
    ensures TopClear(x)
  {
  }

  /** At most fifteen bits leave the top of the register clear. */
  lemma {:induction false} PackedWithin(bits: seq<bool>)
    requires |bits| <= 15
    ensures Within(Packed(bits), Ones(|bits|)) && TopClear(Packed(bits))
  {
    hide Within, Put, Digit, IsDigit, TopClear;
    if bits == [] {
      NothingWithin();
    } else {
      hide Ones;
      PackedWithin(bits[1..]);
      OnesNext(|bits| - 1);
      DigitIsDigit(bits[0]);
      PutWithin(Digit(bits[0]), Packed(bits[1..]), Ones(|bits| - 1));
    }
    WithinOnes(|bits|, Packed(bits));
  }

  lemma NothingWithin()
    ensures Within(0, Ones(0))
  {
  }

  lemma PutOdd(crc: bv16, d: bv16, rest: bv16)
    requires IsDigit(d)
    ensures Odd(Xor(crc, Put(d, rest))) == Odd(Xor(crc, d))
  {
  }

  lemma PutHalf(crc: bv16, d: bv16, rest: bv16)
    requires IsDigit(d) && TopClear(rest)
    ensures Half(Xor(crc, Put(d, rest))) == Xor(Half(Xor(crc, d)), rest)
  {
  }

  lemma XorSwap(x: bv16, y: bv16, z: bv16)
    ensures Xor(Xor(x, y), z) == Xor(Xor(x, z), y)
  {
  }

  lemma ShiftPut(crc: bv16, d: bv16, rest: bv16)
    requires IsDigit(d) && TopClear(rest)
    ensures Shift(Xor(crc, Put(d, rest))) == Xor(Shift(Xor(crc, d)), rest)
  {
    hide Xor, Half, Odd, Put, IsDigit, TopClear;
    PutOdd(crc, d, rest);
    PutHalf(crc, d, rest);
    XorSwap(Half(Xor(crc, d)), 0xA001, rest);
  }

  lemma XorZero(x: bv16)
    ensures Xor(x, 0) == x
  {
  }

  /** Feeding at most sixteen bits is mixing them all in at once and then shifting. */
  lemma {:induction false} FeedAtOnce(crc: bv16, bits: seq<bool>)
    requires |bits| <= 16
    ensures FoldBits(crc, bits) == Shifts(Xor(crc, Packed(bits)), |bits|)
    decreases |bits|
  {
    hide Shift, Put, Xor, Digit, IsDigit, TopClear, Within, Ones;
    if bits == [] {
      XorZero(crc);
    } else {
      var d := Digit(bits[0]);
      PackedWithin(bits[1..]);
      DigitIsDigit(bits[0]);
      ShiftPut(crc, d, Packed(bits[1..]));
      FeedAtOnce(Shift(Xor(crc, d)), bits[1..]);
    }
  }

  lemma ShiftInjective(x: bv16, y: bv16)
    requires Shift(x) == Shift(y)
    ensures x == y
  {
  }

  lemma {:induction false} ShiftsInjective(x: bv16, y: bv16, n: nat)
    requires Shifts(x, n) == Shifts(y, n)
    ensures x == y
    decreases n
  {
    if n > 0 {
      hide Shift;
      ShiftsInjective(Shift(x), Shift(y), n - 1);
      ShiftInjective(x, y);
    }
  }

  lemma XorInjective(c: bv16, x: bv16, y: bv16)
    requires Xor(c, x) == Xor(c, y) || Xor(x, c) == Xor(y, c)
    ensures x == y
  {
  }

  lemma PutInjective(a: bool, x: bv16, b: bool, y: bv16)
    requires Put(Digit(a), x) == Put(Digit(b), y) && TopClear(x) && TopClear(y)
    ensures a == b && x == y
  {
  }

  lemma {:induction false} PackedInjective(u: seq<bool>, v: seq<bool>)
    requires |u| == |v| <= 16 && Packed(u) == Packed(v)
    ensures u == v
  {
    if u != [] {
      hide Put, Digit, Ones, Within, TopClear;
      PackedWithin(u[1..]);
      PackedWithin(v[1..]);
      PutInjective(u[0], Packed(u[1..]), v[0], Packed(v[1..]));
      PackedInjective(u[1..], v[1..]);
    }
  }

  /** From one register value, two different windows of at most sixteen bits never meet again. */
  lemma WindowsDiverge(crc: bv16, u: seq<bool>, v: seq<bool>)
    requires |u| == |v| <= 16 && u != v
    ensures FoldBits(crc, u) != FoldBits(crc, v)
  {
    if FoldBits(crc, u) == FoldBits(crc, v) {
      hide Xor;
      FeedAtOnce(crc, u);
      FeedAtOnce(crc, v);
      ShiftsInjective(Xor(crc, Packed(u)), Xor(crc, Packed(v)), |u|);
      XorInjective(crc, Packed(u), Packed(v));
      PackedInjective(u, v);
    }
  }

  lemma {:induction false} FoldBitsAppend(crc: bv16, a: seq<bool>, b: seq<bool>)
    ensures FoldBits(crc, a + b) == FoldBits(FoldBits(crc, a), b)
    decreases |a|
  {
    if a == [] {
      assert a + b == b;
    } else {
      hide Shift, Xor, Digit;
      assert (a + b)[1..] == a[1..] + b;
      FoldBitsAppend(Shift(Xor(crc, Digit(a[0]))), a[1..], b);
    }
  }

  lemma {:induction false} FoldBitsInjective(x: bv16, y: bv16, bits: seq<bool>)
    requires x != y
    ensures FoldBits(x, bits) != FoldBits(y, bits)
    decreases |bits|
  {
    if bits != [] {
      hide Shift, Xor, Digit;
      var x', y' := Xor(x, Digit(bits[0])), Xor(y, Digit(bits[0]));
      if x' == y' { XorInjective(Digit(bits[0]), x, y); }
      if Shift(x') == Shift(y') { ShiftInjective(x', y'); }
      FoldBitsInjective(Shift(x'), Shift(y'), bits[1..]);
    }
  }

  /** Two bit streams that differ only inside a window of sixteen bits leave different registers. */
  lemma BurstChangesRegister(crc: bv16, u: seq<bool>, v: seq<bool>, start: nat, width: nat)
    requires |u| == |v| && start + width <= |u| && width <= 16 && u != v
    requires u[..start] == v[..start] && u[start + width..] == v[start + width..]
    ensures FoldBits(crc, u) != FoldBits(crc, v)
  {
    var end := start + width;
    var before := FoldBits(crc, u[..start]);
    var tail := u[end..];
    assert u == u[..start] + u[start..end] + tail;
    assert v == v[..start] + v[start..end] + tail;
    FoldBitsAppend(crc, u[..start] + u[start..end], tail);
    FoldBitsAppend(crc, u[..start], u[start..end]);
    FoldBitsAppend(crc, v[..start] + v[start..end], tail);
    FoldBitsAppend(crc, v[..start], v[start..end]);
    WindowsDiverge(before, u[start..end], v[start..end]);
    FoldBitsInjective(FoldBits(before, u[start..end]), FoldBits(before, v[start..end]), tail);
  }

  // ---------- from bits back to bytes ----------

  lemma PackedTwo(bits: seq<bool>, k: nat)
    requires k + 2 <= |bits|
    ensures Packed(bits[k..]) == Put(Digit(bits[k]), Put(Digit(bits[k + 1]), Packed(bits[k + 2..])))
  {
    hide Put, Digit;
    assert bits[k..][1..] == bits[k + 1..];
    assert bits[k + 1..][1..] == bits[k + 2..];
  }

  lemma PackedOctet(x: bv8)
    ensures Packed(BitsOf(x)) == Pair(0, x)
  {
    var b := BitsOf(x);
    hide Put, Digit, Pair, BitsOf;
    assert b[0..] == b && b[8..] == [];
    PackedTwo(b, 0);
    PackedTwo(b, 2);
    PackedTwo(b, 4);
    PackedTwo(b, 6);
    EightDigits(x);
  }

  lemma EightDigits(x: bv8)
    ensures var b := BitsOf(x);
            Put(Digit(b[0]), Put(Digit(b[1]), Put(Digit(b[2]), Put(Digit(b[3]),
              Put(Digit(b[4]), Put(Digit(b[5]), Put(Digit(b[6]), Put(Digit(b[7]), 0)))))))) == Pair(0, x)
  {
  }

  lemma MixIsXor(crc: bv16, x: bv8)
    ensures Mix(crc, x) == Xor(crc, Pair(0, x))
  {
  }

  /** A byte step is eight bit steps. */
  lemma StepIsEightBits(crc: bv16, x: bv8)
    ensures StepBits(crc, x) == FoldBits(crc, BitsOf(x))
  {
    hide Shift, Xor, Mix, Pair, BitsOf;
    FeedAtOnce(crc, BitsOf(x));
    PackedOctet(x);
    MixIsXor(crc, x);
    ShiftsEight(Mix(crc, x));
  }

  lemma {:induction false} FoldIsFoldBits(crc: bv16, msg: seq<Byte>)
    ensures Fold(crc, msg) == FoldBits(crc, BitStream(msg))
    decreases |msg|
  {
    if msg != [] {
      hide StepBits, BitsOf;
      var b := BitsOf(Octet(msg[0]));
      StepIsEightBits(crc, Octet(msg[0]));
      FoldIsFoldBits(Step(crc, msg[0]), msg[1..]);
      FoldBitsAppend(crc, b, BitStream(msg[1..]));
    }
  }

  // ---------- the tables are the bitwise step ----------

  lemma ShiftDouble(crc: bv16, y: bv16)
    requires TopClear(y)
    ensures Shift(Xor(crc, Put(0, y))) == Xor(Shift(crc), y)
  {
    hide Shift, Put, TopClear, Xor;
    XorZero(crc);
    assert IsDigit(0);
    ShiftPut(crc, 0, y);
  }

  lemma PairSplit(high: bv8, low: bv8, y: bv16)
    requires y == Put(0, Put(0, Put(0, Put(0, Pair(0, high)))))
    ensures Pair(high, low) == Xor(Pair(0, low), Put(0, Put(0, Put(0, Put(0, y)))))
    ensures TopClear(Pair(0, high)) && TopClear(Put(0, Pair(0, high))) && TopClear(Put(0, Put(0, Pair(0, high))))
    ensures TopClear(Put(0, Put(0, Put(0, Pair(0, high))))) && TopClear(y) && TopClear(Put(0, y))
    ensures TopClear(Put(0, Put(0, y))) && TopClear(Put(0, Put(0, Put(0, y))))
  {
  }

  /** Eight shifts send the high byte down unchanged. */
  lemma Shift8Split(high: bv8, low: bv8)
    ensures Shift8(Pair(high, low)) == Mix(Shift8(Pair(0, low)), high)
  {
    hide Shift, Put, TopClear, Xor, Mix, Pair;
    var y0 := Pair(0, high);
    var y1 := Put(0, y0);
    var y2 := Put(0, y1);
    var y3 := Put(0, y2);
    var y4 := Put(0, y3);
    var y5, y6 := Put(0, y4), Put(0, Put(0, y4));
    PairSplit(high, low, y4);
    var c := Pair(0, low);
    ShiftDouble(c, Put(0, y6));
    ShiftDouble(Shift(c), y6);
    ShiftDouble(Shift(Shift(c)), y5);
    ShiftDouble(Shift(Shift(Shift(c))), y4);
    var d := Shift(Shift(Shift(Shift(c))));
    ShiftDouble(d, y3);
    ShiftDouble(Shift(d), y2);
    ShiftDouble(Shift(Shift(d)), y1);
    ShiftDouble(Shift(Shift(Shift(d))), y0);
    MixIsXor(Shift8(c), high);
  }

  lemma TablesAreShift8(i: bv8)
    ensures TableHi(i) == Low(Shift8(Pair(0, i))) && TableLo(i) == High(Shift8(Pair(0, i)))
  {
    hide Shift8, TableHi, TableLo, Low, High;
    assert Pair(0, i) == i as bv16;
    TableHiIsShift8(i);
    if i < 128 { TableLoLowHalf(i); }
    else if i < 192 { TableLoThirdQuarter(i); }
    else { TableLoLastQuarter(i); }
  }

  /** One turn of the loop of crc16 on its two registers. */
  function NextHi(crcHi: bv8, crcLo: bv8, b: bv8): bv8 {
    crcLo ^ TableHi(crcHi ^ b)
  }

  function NextLo(crcHi: bv8, b: bv8): bv8 {
    TableLo(crcHi ^ b)
  }

  lemma TableStep(crc: bv16, b: bv8)
    ensures Low(StepBits(crc, b)) == NextHi(Low(crc), High(crc), b)
    ensures High(StepBits(crc, b)) == NextLo(Low(crc), b)
  {
    hide Shift8, TableHi, TableLo, Low, High, Mix, Pair;
    var low := Low(crc) ^ b;
    MixLow(crc, b);
    Shift8Split(High(crc), low);
    MixRegisters(Shift8(Pair(0, low)), High(crc));
    TablesAreShift8(low);
  }

  lemma MixLow(crc: bv16, b: bv8)
    ensures Mix(crc, b) == Pair(High(crc), Low(crc) ^ b)
  {
  }

  lemma MixRegisters(s: bv16, h: bv8)
    ensures Low(Mix(s, h)) == h ^ Low(s) && High(Mix(s, h)) == High(s)
  {
  }

  // ---------- crc16 over a buffer ----------

  const INITIAL: bv16 := 0xFFFF

  /** The two check bytes in the order they are sent: low byte of the register first. */
  function CrcBytes(msg: seq<Byte>): (c: seq<Byte>)
    ensures |c| == 2
  {
    var r := Fold(INITIAL, msg);
    [Low(r) as int, High(r) as int]
  }

  function Crc16(msg: seq<Byte>): Word {
    Join(CrcBytes(msg)[0], CrcBytes(msg)[1])
  }

  lemma {:induction false} FoldAppend(crc: bv16, a: seq<Byte>, b: seq<Byte>)
    ensures Fold(crc, a + b) == Fold(Fold(crc, a), b)
    decreases |a|
  {
    if a == [] {
      assert a + b == b;
    } else {
      assert (a + b)[1..] == a[1..] + b;
      FoldAppend(Step(crc, a[0]), a[1..], b);
    }
  }

  lemma FoldSnoc(crc: bv16, a: seq<Byte>, b: Byte)
    ensures Fold(crc, a + [b]) == Step(Fold(crc, a), b)
  {
    FoldAppend(crc, a, [b]);
    assert Fold(Step(Fold(crc, a), b), []) == Step(Fold(crc, a), b);
  }

  /** crc16 of modbus-rtu.c: two byte registers and two table lookups per message byte. */
  method ComputeCrc16(buffer: array<Byte>, length: nat) returns (crc: Word)
    requires length <= buffer.Length
    ensures crc == Crc16(buffer[..length])
  {
    hide StepBits, NextHi, NextLo, Low, High, Octet;
    var crcHi, crcLo := Low(INITIAL), High(INITIAL);
    var i := 0;
    while i < length
      invariant 0 <= i <= length
      invariant crcHi == Low(Fold(INITIAL, buffer[..i])) && crcLo == High(Fold(INITIAL, buffer[..i]))
    {
      assert buffer[..i + 1] == buffer[..i] + [buffer[i]];
      FoldSnoc(INITIAL, buffer[..i], buffer[i]);
      TableStep(Fold(INITIAL, buffer[..i]), Octet(buffer[i]));
      crcHi, crcLo := NextHi(crcHi, crcLo, Octet(buffer[i])), NextLo(crcHi, Octet(buffer[i]));
      i := i + 1;
    }
    crc := Join(crcHi as int, crcLo as int);
  }

  // ---------- the integrity check of a frame ----------

  const BROADCAST := 0

  datatype Integrity = Accepted(length: nat) | Ignored | BadCrc

  /** _modbus_rtu_check_integrity: frames for other slaves are ignored unchecked. */
  function CheckIntegrity(slave: int, msg: seq<Byte>): Integrity
    requires |msg| >= 2
  {
    var n := |msg| - 2;
    if msg[0] != slave && msg[0] != BROADCAST then Ignored
    else if Crc16(msg[..n]) == Join(msg[n], msg[n + 1]) then Accepted(|msg|)
    else BadCrc
  }

  method CheckFrame(slave: int, msg: array<Byte>, length: nat) returns (r: Integrity)
    requires 2 <= length <= msg.Length
    ensures r == CheckIntegrity(slave, msg[..length])
  {
    if msg[0] != slave && msg[0] != BROADCAST {
      return Ignored;
    }
    assert msg[..length][..length - 2] == msg[..length - 2];
    var calculated := ComputeCrc16(msg, length - 2);
    var received := Join(msg[length - 2], msg[length - 1]);
    r := if calculated == received then Accepted(length) else BadCrc;
  }

  lemma BitsOfInjective(x: bv8, y: bv8)
    requires BitsOf(x) == BitsOf(y)
    ensures x == y
  {
    var b, c := BitsOf(x), BitsOf(y);
    assert b[0] == c[0] && b[1] == c[1] && b[2] == c[2] && b[3] == c[3];
    assert b[4] == c[4] && b[5] == c[5] && b[6] == c[6] && b[7] == c[7];
  }

  lemma {:induction false} BitStreamInjective(u: seq<Byte>, v: seq<Byte>)
    requires |u| == |v| && BitStream(u) == BitStream(v)
    ensures u == v
  {
    if u != [] {
      hide BitsOf;
      var b, c := BitsOf(Octet(u[0])), BitsOf(Octet(v[0]));
      assert b == BitStream(u)[..8] && c == BitStream(v)[..8];
      assert BitStream(u[1..]) == BitStream(u)[8..] && BitStream(v[1..]) == BitStream(v)[8..];
      BitsOfInjective(Octet(u[0]), Octet(v[0]));
      OctetValue(u[0]);
      OctetValue(v[0]);
      BitStreamInjective(u[1..], v[1..]);
    }
  }

  lemma TwoSteps(crc: bv16, low: Byte, high: Byte)
    ensures Fold(crc, [low, high]) == StepBits(StepBits(crc, Octet(low)), Octet(high))
  {
    hide StepBits, Octet;
    assert Fold(Step(Step(crc, low), high), []) == Step(Step(crc, low), high);
    assert [low, high][1..] == [high];
  }

  lemma OwnBytesClear(crc: bv16)
    ensures StepBits(StepBits(crc, Low(crc)), High(crc)) == 0
  {
    hide Shift8, Pair, Mix, Low, High;
    MixLow(crc, Low(crc));
    XorSelf(Low(crc));
    Shift8Split(High(crc), 0);
    ClearRegister(High(crc));
  }

  lemma XorSelf(x: bv8)
    ensures x ^ x == 0
  {
  }

  lemma ClearRegister(high: bv8)
    ensures Shift8(Pair(0, 0)) == 0 && Shift8(Mix(Mix(0, high), high)) == 0
  {
  }

  /** The two check bytes are the only ones that bring the register to zero. */
  lemma ResidueIsZero(crc: bv16, low: Byte, high: Byte)
    ensures Fold(crc, [low, high]) == 0 <==> low == Low(crc) as int && high == High(crc) as int
  {
    hide StepBits, Low, High, BitsOf, Octet;
    var own: seq<Byte> := [Low(crc) as int, High(crc) as int];
    OctetOfValue(Low(crc));
    OctetOfValue(High(crc));
    TwoSteps(crc, own[0], own[1]);
    OwnBytesClear(crc);
    var given := [low, high];
    if given != own {
      FoldIsFoldBits(crc, own);
      FoldIsFoldBits(crc, given);
      if BitStream(own) == BitStream(given) { BitStreamInjective(own, given); }
      BurstChangesRegister(crc, BitStream(own), BitStream(given), 0, 16);
    } else {
      assert given[0] == own[0] && given[1] == own[1];
    }
  }

  /** A frame addressed to this slave is accepted exactly when the bitwise CRC over all of it is zero. */
  lemma AcceptedIffResidueZero(slave: int, msg: seq<Byte>)
    requires |msg| >= 2 && (msg[0] == slave || msg[0] == BROADCAST)
    ensures CheckIntegrity(slave, msg) == if Fold(INITIAL, msg) == 0 then Accepted(|msg|) else BadCrc
  {
    hide Low, High, StepBits;
    var n := |msg| - 2;
    assert msg == msg[..n] + [msg[n], msg[n + 1]];
    FoldAppend(INITIAL, msg[..n], [msg[n], msg[n + 1]]);
    ResidueIsZero(Fold(INITIAL, msg[..n]), msg[n], msg[n + 1]);
  }

  lemma FreshFrameAccepted(slave: int, body: seq<Byte>)
    requires body != [] && (body[0] == slave || body[0] == BROADCAST)
    ensures CheckIntegrity(slave, body + CrcBytes(body)) == Accepted(|body| + 2)
  {
    hide Low, High, Fold;
    var msg := body + CrcBytes(body);
    assert msg[..|msg| - 2] == body;
  }

  /**
   Error detection: if an accepted frame is altered inside any window of sixteen consecutive
   bits, it is not accepted; with its address byte intact it is refused for its CRC.
   */
  lemma BurstRejected(slave: int, sent: seq<Byte>, got: seq<Byte>, start: nat, width: nat)
    requires |sent| >= 2 && CheckIntegrity(slave, sent).Accepted?
    requires |got| == |sent| && got != sent
    requires width <= 16 && start + width <= 8 * |sent|
    requires BitStream(got)[..start] == BitStream(sent)[..start]
    requires BitStream(got)[start + width..] == BitStream(sent)[start + width..]
    ensures !CheckIntegrity(slave, got).Accepted?
    ensures got[0] == sent[0] ==> CheckIntegrity(slave, got) == BadCrc
  {
    hide Fold, FoldBits, BitStream;
    AcceptedIffResidueZero(slave, sent);
    FoldIsFoldBits(INITIAL, sent);
    FoldIsFoldBits(INITIAL, got);
    if BitStream(got) == BitStream(sent) { BitStreamInjective(got, sent); }
    BurstChangesRegister(INITIAL, BitStream(sent), BitStream(got), start, width);
    if got[0] == slave || got[0] == BROADCAST { AcceptedIffResidueZero(slave, got); }
  }

  lemma {:induction false} BitStreamAppend(a: seq<Byte>, b: seq<Byte>)
    ensures BitStream(a + b) == BitStream(a) + BitStream(b)
  {
    if a == [] {
      assert a + b == b;
    } else {
      hide BitsOf;
      assert (a + b)[1..] == a[1..] + b;
      BitStreamAppend(a[1..], b);
    }
  }

  /** In bytes: one altered byte, or two adjacent ones, anywhere after the slave address. */
  lemma AlteredBytesRejected(slave: int, sent: seq<Byte>, got: seq<Byte>, k: nat)
    requires |sent| >= 2 && CheckIntegrity(slave, sent).Accepted?
    requires |got| == |sent| && got != sent && 1 <= k && k + 2 <= |sent|
    requires got[..k] == sent[..k] && got[k + 2..] == sent[k + 2..]
    ensures CheckIntegrity(slave, got) == BadCrc
  {
    hide BitsOf, BitStream;
    assert got[0] == got[..k][0] == sent[..k][0] == sent[0];
    assert sent == sent[..k] + (sent[k..k + 2] + sent[k + 2..]);
    assert got == got[..k] + (got[k..k + 2] + got[k + 2..]);
    BitStreamAppend(sent[..k], sent[k..k + 2] + sent[k + 2..]);
    BitStreamAppend(sent[k..k + 2], sent[k + 2..]);
    BitStreamAppend(got[..k], got[k..k + 2] + got[k + 2..]);
    BitStreamAppend(got[k..k + 2], got[k + 2..]);
    BurstRejected(slave, sent, got, 8 * k, 16);
  }

  /** One message: behind the bytes 02 07 stand the check bytes 41 12. */
  lemma KnownCheckBytes()
    ensures CrcBytes([0x02, 0x07]) == [0x41, 0x12] && Crc16([0x02, 0x07]) == 0x4112
  {
    OctetOfValue(0x02);
    OctetOfValue(0x07);
    TwoSteps(0xFFFF, 0x02, 0x07);
    assert StepBits(0xFFFF, 0x02) == 0x813E;
    assert StepBits(0x813E, 0x07) == 0x1241;
  }
}
