/**
 The register space of the OpenPLC Modbus server (core/modbus.cpp): one 16-bit address space
 laid over 16-, 32- and 64-bit PLC variables. The pointers of the image tables become cells
 that are either unmapped (a null pointer) or hold the value of a variable of their own.
 */
module PlcMemory {
  import opened Bits
  import opened PlcWords

  const MIN_16B := 1024
  const MIN_32B := 2048
  const MIN_64B := 4096
  const END_64B := 8192
  const MAX_COILS := 800

  datatype Cell<T> = Unmapped | Mapped(value: T)

  datatype Image = Image(
    boolInput: seq<Cell<Byte>>,
    boolOutput: seq<Cell<Byte>>,
    intInput: seq<Cell<Word>>,
    intOutput: seq<Cell<Word>>,
    intMemory: seq<Cell<Word>>,
    dintMemory: seq<Cell<DWord>>,
    lintMemory: seq<Cell<LWord>>,
    holdingRegs: seq<Word>)
  {
    predicate Valid() {
      && |boolInput| == |boolOutput| == 8192
      && |intInput| == |intOutput| == |intMemory| == |dintMemory| == |lintMemory| == 1024
      && |holdingRegs| == END_64B
    }
  }

  /** Address 1024 indexes one past the end of int_output: the guards say `<=`. */
  predicate Address(p: nat) {
    p < END_64B && p != MIN_16B
  }

  // ---------- 32- and 64-bit variables in 16-bit steps ----------

  function Shift32(p: nat): nat {
    if p % 2 == 0 then 16 else 0
  }

  function Mask32(p: nat): nat {
    if p % 2 == 0 then 0x0000_FFFF else 0xFFFF_0000
  }

  function Shift64(k: nat): nat
    requires k < 4
  {
    48 - 16 * k
  }

  function Mask64(k: nat): nat
    requires k < 4
  {
    if k == 0 then 0x0000_FFFF_FFFF_FFFF
    else if k == 1 then 0xFFFF_0000_FFFF_FFFF
    else if k == 2 then 0xFFFF_FFFF_0000_FFFF
    else 0xFFFF_FFFF_FFFF_0000
  }

  function Set32(v: DWord, p: nat, w: Word): DWord {
    MasksOfSource();
    PowersOfWidths();
    ReplaceFits(32, v, Mask32(p), w, Shift32(p));
    Replace(v, Mask32(p), w, Shift32(p))
  }

  function Set64(v: LWord, k: nat, w: Word): LWord
    requires k < 4
  {
    MasksOfSource();
    PowersOfWidths();
    ReplaceFits(64, v, Mask64(k), w, Shift64(k));
    Replace(v, Mask64(k), w, Shift64(k))
  }

  lemma PowersOfWidths()
    ensures Shl(1, 32) == 0x1_0000_0000 && Shl(1, 64) == 0x1_0000_0000_0000_0000
  {
    Powers();
  }

  // ---------- single registers ----------

  /** The word a register stands for. */
  function Stored(m: Image, p: nat): Word
    requires m.Valid() && Address(p)
  {
    if p < MIN_16B then (if m.intOutput[p].Mapped? then m.intOutput[p].value else 0)
    else if p < MIN_32B then (if m.intMemory[p - MIN_16B].Mapped? then m.intMemory[p - MIN_16B].value else 0)
    else if p < MIN_64B then
      match m.dintMemory[(p - MIN_32B) / 2]
      case Mapped(v) => Part(v, Shift32(p))
      case Unmapped => m.holdingRegs[p]
    else
      match m.lintMemory[(p - MIN_64B) / 4]
      case Mapped(v) => Part(v, Shift64(p % 4))
      case Unmapped => m.holdingRegs[p]
  }

  /** A 32- or 64-bit address without a variable. */
  predicate Spare(m: Image, p: nat)
    requires m.Valid() && Address(p)
  {
    p >= MIN_32B &&
    if p < MIN_64B then m.dintMemory[(p - MIN_32B) / 2].Unmapped? else m.lintMemory[(p - MIN_64B) / 4].Unmapped?
  }

  /** The two bytes ReadHoldingRegisters emits; a spare register's low byte goes into both. */
  function Fetched(m: Image, p: nat): (Byte, Byte)
    requires m.Valid() && Address(p)
  {
    var w := Stored(m, p);
    if Spare(m, p) then (Lo(w), Lo(w)) else (Hi(w), Lo(w))
  }

  lemma FetchedIsStored(m: Image, p: nat)
    requires m.Valid() && Address(p)
    ensures Join(Fetched(m, p).0, Fetched(m, p).1) == Stored(m, p)
      <==> !Spare(m, p) || Hi(Stored(m, p)) == Lo(Stored(m, p))
  {
    JoinParts(Stored(m, p));
  }

  /** WriteRegister's assignment */
  function Store(m: Image, p: nat, w: Word): Image
    requires m.Valid() && Address(p)
  {
    if p < MIN_16B then
      if m.intOutput[p].Mapped? then m.(intOutput := m.intOutput[p := Mapped(w)]) else m
    else if p < MIN_32B then
      if m.intMemory[p - MIN_16B].Mapped? then m.(intMemory := m.intMemory[p - MIN_16B := Mapped(w)]) else m
    else if p < MIN_64B then
      var i := (p - MIN_32B) / 2;
      match m.dintMemory[i]
      case Mapped(v) => m.(dintMemory := m.dintMemory[i := Mapped(Set32(v, p, w))])
      case Unmapped => m.(holdingRegs := m.holdingRegs[p := w])
    else
      var i := (p - MIN_64B) / 4;
      match m.lintMemory[i]
      case Mapped(v) => m.(lintMemory := m.lintMemory[i := Mapped(Set64(v, p % 4, w))])
      case Unmapped => m.(holdingRegs := m.holdingRegs[p := w])
  }

  /** A write to an unmapped 16-bit register is lost. */
  predicate Held(m: Image, p: nat)
    requires m.Valid() && Address(p)
  {
    if p < MIN_16B then m.intOutput[p].Mapped?
    else if p < MIN_32B then m.intMemory[p - MIN_16B].Mapped?
    else true
  }

  predicate SameShape<T>(a: seq<Cell<T>>, b: seq<Cell<T>>) {
    |a| == |b| && forall i :: 0 <= i < |a| ==> a[i].Mapped? == b[i].Mapped?
  }

  /** The same variables are mapped, and everything outside the register space is the same. */
  predicate SameMapping(a: Image, b: Image) {
    && a.boolInput == b.boolInput && a.boolOutput == b.boolOutput && a.intInput == b.intInput
    && SameShape(a.intOutput, b.intOutput) && SameShape(a.intMemory, b.intMemory)
    && SameShape(a.dintMemory, b.dintMemory) && SameShape(a.lintMemory, b.lintMemory)
    && |a.holdingRegs| == |b.holdingRegs|
  }

  lemma StoreMapping(m: Image, p: nat, w: Word)
    requires m.Valid() && Address(p)
    ensures Store(m, p, w).Valid() && SameMapping(m, Store(m, p, w))
  {
    hide Set32, Set64;
  }

  lemma Set32Part(v: DWord, p: nat, w: Word, q: nat)
    ensures Part(Set32(v, p, w), Shift32(q)) == if Shift32(p) == Shift32(q) then w else Part(v, Shift32(q))
  {
    MasksOfSource();
    ReplacePart(32, v, Mask32(p), w, Shift32(p), Shift32(q));
    hide Masks, Part, Replace;
  }

  lemma Set64Part(v: LWord, k: nat, w: Word, j: nat)
    requires k < 4 && j < 4
    ensures Part(Set64(v, k, w), Shift64(j)) == if k == j then w else Part(v, Shift64(j))
  {
    Masks64(k);
    ShiftsApart(k, j);
    ReplacePart(64, v, Mask64(k), w, Shift64(k), Shift64(j));
    hide Masks, Part, Replace, Mask64, Shift64;
  }

  lemma Masks64(k: nat)
    requires k < 4
    ensures Masks(64, Mask64(k), Shift64(k))
  {
    MasksOfSource();
    hide Masks;
  }

  lemma ShiftsApart(k: nat, j: nat)
    requires k < 4 && j < 4
    ensures Shift64(j) + 16 <= 64
    ensures if j == k then Shift64(j) == Shift64(k)
      else Shift64(j) != Shift64(k) && (Shift64(j) + 16 <= Shift64(k) || Shift64(k) + 16 <= Shift64(j))
  {
  }

  lemma Store16(m: Image, p: nat, w: Word, q: nat)
    requires m.Valid() && Address(p) && Address(q) && p < MIN_32B && Store(m, p, w).Valid()
    ensures Stored(Store(m, p, w), q) == if p == q && Held(m, p) then w else Stored(m, q)
  {
    hide Part, Set32, Set64;
  }

  lemma Store32(m: Image, p: nat, w: Word, q: nat)
    requires m.Valid() && Address(p) && Address(q) && MIN_32B <= p < MIN_64B && Store(m, p, w).Valid()
    ensures Stored(Store(m, p, w), q) == if p == q then w else Stored(m, q)
  {
    var cell := m.dintMemory[(p - MIN_32B) / 2];
    if cell.Mapped? { Set32Part(cell.value, p, w, q); }
    hide Part, Set32, Set64, Mask32, Mask64;
  }

  lemma Store64(m: Image, p: nat, w: Word, q: nat)
    requires m.Valid() && Address(p) && Address(q) && MIN_64B <= p && Store(m, p, w).Valid()
    ensures Stored(Store(m, p, w), q) == if p == q then w else Stored(m, q)
  {
    hide Part, Set64, Shift64;
    var i, cell := (p - MIN_64B) / 4, m.lintMemory[(p - MIN_64B) / 4];
    if cell.Unmapped? {
      hide Set64;
    } else if q < MIN_64B {
      assert Store(m, p, w) == m.(lintMemory := Store(m, p, w).lintMemory);
    } else {
      Set64Part(cell.value, p % 4, w, q % 4);
      SlotOf(p, q);
      assert Store(m, p, w).lintMemory == m.lintMemory[i := Mapped(Set64(cell.value, p % 4, w))];
    }
  }

  lemma SlotOf(p: nat, q: nat)
    requires p >= MIN_64B && q >= MIN_64B
    ensures p == q <==> (p - MIN_64B) / 4 == (q - MIN_64B) / 4 && p % 4 == q % 4
  {
  }

  /** A single write changes the register written and no other register. */
  lemma StoreStored(m: Image, p: nat, w: Word, q: nat)
    requires m.Valid() && Address(p) && Address(q)
    ensures Store(m, p, w).Valid()
    ensures Stored(Store(m, p, w), q) == if p == q && Held(m, p) then w else Stored(m, q)
  {
    hide Stored, Store, Image.Valid;
    StoreMapping(m, p, w);
    if p < MIN_32B { Store16(m, p, w, q); } else if p < MIN_64B { Store32(m, p, w, q); } else { Store64(m, p, w, q); }
  }

  // ---------- runs of single writes ----------

  datatype Write = Write(address: nat, value: Word)

  predicate Addressed(ws: seq<Write>) {
    forall i :: 0 <= i < |ws| ==> Address(ws[i].address)
  }

  function After(m: Image, ws: seq<Write>): (r: Image)
    requires m.Valid() && Addressed(ws)
    ensures r.Valid() && SameMapping(m, r)
  {
    if ws == [] then m
    else
      var n := |ws| - 1;
      StoreMapping(After(m, ws[..n]), ws[n].address, ws[n].value);
      Store(After(m, ws[..n]), ws[n].address, ws[n].value)
  }

  datatype Latest = Never | Last(value: Word)

  function LastWrite(ws: seq<Write>, p: nat): Latest {
    if ws == [] then Never
    else if ws[|ws| - 1].address == p then Last(ws[|ws| - 1].value)
    else LastWrite(ws[..|ws| - 1], p)
  }

  /** After any run of writes a mapped register holds what was last written to it. */
  lemma {:induction false} RegistersRemember(m: Image, ws: seq<Write>, p: nat)
    requires m.Valid() && Addressed(ws) && Address(p)
    ensures Stored(After(m, ws), p) ==
      if Held(m, p) && LastWrite(ws, p).Last? then LastWrite(ws, p).value else Stored(m, p)
  {
    if ws != [] {
      var n := |ws| - 1;
      RegistersRemember(m, ws[..n], p);
      StoreStored(After(m, ws[..n]), ws[n].address, ws[n].value, p);
      hide Stored, Store, LastWrite, After;
      HeldSame(m, After(m, ws[..n]), p);
      LastSnoc(ws, p);
      AfterSnoc(m, ws);
    }
  }

  lemma HeldSame(a: Image, b: Image, p: nat)
    requires a.Valid() && b.Valid() && SameMapping(a, b) && Address(p)
    ensures Held(a, p) == Held(b, p) && Spare(a, p) == Spare(b, p)
  {
  }

  lemma LastSnoc(ws: seq<Write>, p: nat)
    requires ws != []
    ensures var last := ws[|ws| - 1];
      LastWrite(ws, p) == if last.address == p then Last(last.value) else LastWrite(ws[..|ws| - 1], p)
  {
  }

  lemma AfterSnoc(m: Image, ws: seq<Write>)
    requires m.Valid() && Addressed(ws) && ws != []
    ensures var n := |ws| - 1; After(m, ws) == Store(After(m, ws[..n]), ws[n].address, ws[n].value)
  {
  }

  lemma Assembled32(v: DWord, w0: Word, w1: Word)
    requires Part(v, Shift32(0)) == w0 && Part(v, Shift32(1)) == w1
    ensures v == Value32(w0, w1)
  {
    DWordParts(v);
  }

  lemma Assembled64(v: LWord, w0: Word, w1: Word, w2: Word, w3: Word)
    requires Part(v, Shift64(0)) == w0 && Part(v, Shift64(1)) == w1
    requires Part(v, Shift64(2)) == w2 && Part(v, Shift64(3)) == w3
    ensures v == Value64(w0, w1, w2, w3)
  {
    LWordParts(v);
  }

  lemma StoredWide(m: Image, i: nat)
    requires m.Valid() && i < 1024
    ensures m.dintMemory[i].Mapped? ==>
      forall k :: 0 <= k < 2 ==> Stored(m, 2 * i + k + MIN_32B) == Part(m.dintMemory[i].value, Shift32(k))
    ensures m.lintMemory[i].Mapped? ==>
      forall k :: 0 <= k < 4 ==> Stored(m, 4 * i + k + MIN_64B) == Part(m.lintMemory[i].value, Shift64(k))
  {
    hide Part;
  }

  predicate Wrote(ws: seq<Write>, p: nat, w: Word) {
    LastWrite(ws, p) == Last(w)
  }

  /** The word writes of a 64-bit variable assemble it big-endian, whatever their order. */
  lemma Variable64(m: Image, ws: seq<Write>, i: nat, w0: Word, w1: Word, w2: Word, w3: Word)
    requires m.Valid() && Addressed(ws) && i < 1024 && m.lintMemory[i].Mapped?
    requires Wrote(ws, MIN_64B + 4 * i, w0) && Wrote(ws, MIN_64B + 4 * i + 1, w1)
    requires Wrote(ws, MIN_64B + 4 * i + 2, w2) && Wrote(ws, MIN_64B + 4 * i + 3, w3)
    ensures After(m, ws).lintMemory[i] == Mapped(Value64(w0, w1, w2, w3))
  {
    hide Stored, Part, LastWrite, After, Shift64, Value64;
    var a, v := MIN_64B + 4 * i, After(m, ws).lintMemory[i].value;
    StoredWide(After(m, ws), i);
    RegistersRemember(m, ws, a);
    assert Part(v, Shift64(0)) == Stored(After(m, ws), 4 * i + 0 + MIN_64B) == w0;
    RegistersRemember(m, ws, a + 1);
    assert Part(v, Shift64(1)) == Stored(After(m, ws), 4 * i + 1 + MIN_64B) == w1;
    RegistersRemember(m, ws, a + 2);
    assert Part(v, Shift64(2)) == Stored(After(m, ws), 4 * i + 2 + MIN_64B) == w2;
    RegistersRemember(m, ws, a + 3);
    assert Part(v, Shift64(3)) == Stored(After(m, ws), 4 * i + 3 + MIN_64B) == w3;
    Assembled64(v, w0, w1, w2, w3);
  }

  /** The two word writes of a 32-bit variable likewise. */
  lemma Variable32(m: Image, ws: seq<Write>, i: nat, w0: Word, w1: Word)
    requires m.Valid() && Addressed(ws) && i < 1024 && m.dintMemory[i].Mapped?
    requires Wrote(ws, MIN_32B + 2 * i, w0) && Wrote(ws, MIN_32B + 2 * i + 1, w1)
    ensures After(m, ws).dintMemory[i] == Mapped(Value32(w0, w1))
  {
    hide Stored, Part, LastWrite, After, Shift32, Value32;
    var a, v := MIN_32B + 2 * i, After(m, ws).dintMemory[i].value;
    StoredWide(After(m, ws), i);
    RegistersRemember(m, ws, a);
    assert Part(v, Shift32(0)) == Stored(After(m, ws), 2 * i + 0 + MIN_32B) == w0;
    RegistersRemember(m, ws, a + 1);
    assert Part(v, Shift32(1)) == Stored(After(m, ws), 2 * i + 1 + MIN_32B) == w1;
    Assembled32(v, w0, w1);
  }

  // ---------- block writes ----------

  /** The remainder of C, which takes the sign of the dividend. */
  function Remainder(x: int, d: nat): int
    requires d > 0
  {
    if x >= 0 then x % d else -((-x) % d)
  }

  /** The 32-bit branch looks up the variable of the block's first address. */
  function Index32(start: nat): nat
    requires start >= MIN_32B - 1
  {
    if start < MIN_32B then 0 else (start - MIN_32B) / 2
  }

  /** The step reads no table out of bounds and follows no null pointer. */
  predicate Definite(m: Image, start: nat, p: nat)
    requires m.Valid()
  {
    && start <= p && Address(p)
    && (MIN_32B <= p < MIN_64B ==>
          && start >= MIN_32B - 1
          && (m.dintMemory[Index32(start)].Mapped? ==> m.dintMemory[(p - MIN_32B) / 2].Mapped?))
  }

  /** One step of WriteMultipleRegisters, at address `p` of a block of `count` from `start` */
  function StoreBlock(m: Image, start: nat, p: nat, w: Word, count: Word): Image
    requires m.Valid() && Definite(m, start, p)
  {
    if p < MIN_32B then Store(m, p, w)
    else if p < MIN_64B then
      if m.dintMemory[Index32(start)].Mapped? then Store(m, p, w)
      else m.(holdingRegs := m.holdingRegs[p := w])
    else
      var i := (p - MIN_64B) / 4;
      match m.lintMemory[i]
      case Unmapped => m.(holdingRegs := m.holdingRegs[start := count])
      case Mapped(v) =>
        var k := if (p - MIN_64B) % 4 == 0 then 0 else Remainder(start - MIN_64B, 4);
        if k > 0 || (p - MIN_64B) % 4 == 0 then m.(lintMemory := m.lintMemory[i := Mapped(Set64(v, k, w))]) else m
  }

  /** When a block write's step is the single write at that address. */
  predicate Sound(m: Image, start: nat, p: nat)
    requires m.Valid() && Definite(m, start, p)
  {
    if p < MIN_32B then true
    else if p < MIN_64B then m.dintMemory[Index32(start)].Mapped? == m.dintMemory[(p - MIN_32B) / 2].Mapped?
    else
      && m.lintMemory[(p - MIN_64B) / 4].Mapped?
      && (p % 4 == 0 || (start >= MIN_64B && start % 4 == p % 4))
  }

  lemma SoundStep(m: Image, start: nat, p: nat, w: Word, count: Word)
    requires m.Valid() && Definite(m, start, p) && Sound(m, start, p)
    ensures StoreBlock(m, start, p, w, count) == Store(m, p, w)
  {
    hide Set64, Set32;
  }

  /** Outside these cases some word makes the step differ from the single write. */
  lemma UnsoundStep(m: Image, start: nat, p: nat, w: Word, count: Word)
    requires m.Valid() && Definite(m, start, p) && !Sound(m, start, p)
    requires w != Stored(m, p) && w != count
    ensures StoreBlock(m, start, p, w, count) != Store(m, p, w)
  {
    hide Set32, Set64, Part, Shift32, Shift64;
    StoreStored(m, p, w, p);
    var b := StoreBlock(m, start, p, w, count);
    if p < MIN_64B {
      assert b == m.(holdingRegs := m.holdingRegs[p := w]);
    } else if m.lintMemory[(p - MIN_64B) / 4].Mapped? {
      UnsoundWord(m, start, p, w, count);
    } else {
      assert b == m.(holdingRegs := m.holdingRegs[start := count]);
      assert Store(m, p, w).holdingRegs[p] == w;
      if p == start { assert b.holdingRegs[p] == count; } else { assert b.holdingRegs[p] == m.holdingRegs[p]; }
    }
  }

  lemma UnsoundWord(m: Image, start: nat, p: nat, w: Word, count: Word)
    requires m.Valid() && Definite(m, start, p) && !Sound(m, start, p)
    requires p >= MIN_64B && m.lintMemory[(p - MIN_64B) / 4].Mapped?
    ensures StoreBlock(m, start, p, w, count).Valid()
    ensures Stored(StoreBlock(m, start, p, w, count), p) == Stored(m, p)
  {
    hide Set64, Part, Shift64;
    var v, k := m.lintMemory[(p - MIN_64B) / 4].value, Remainder(start - MIN_64B, 4);
    if k > 0 { Set64Part(v, k, w, p % 4); }
  }

  lemma BlockStepIffSound(m: Image, start: nat, p: nat, count: Word)
    requires m.Valid() && Definite(m, start, p)
    ensures (forall w: Word :: StoreBlock(m, start, p, w, count) == Store(m, p, w)) <==> Sound(m, start, p)
  {
    if Sound(m, start, p) {
      forall w: Word ensures StoreBlock(m, start, p, w, count) == Store(m, p, w) {
        SoundStep(m, start, p, w, count);
      }
    } else {
      var w: Word := if Stored(m, p) != 0 && count != 0 then 0
        else if Stored(m, p) != 1 && count != 1 then 1 else 2;
      UnsoundStep(m, start, p, w, count);
    }
  }
}
