/**
 The replies of the OpenPLC Modbus server on the wire: which requests are refused and with what
 code, and what stands in every byte of a reply, in numbers taken from no other module.
 */
module PlcWire {
  import opened Bits
  import opened PlcWords
  import opened PlcMemory
  import opened PlcModbus
  import opened PlcSessions

  function Number(high: int, low: int): int {
    256 * high + low
  }

  /** The address of a request, and its quantity or value. */
  function From(mem: seq<Byte>): nat
    requires |mem| >= 264
  {
    Number(mem[8], mem[9])
  }

  function Many(mem: seq<Byte>): nat
    requires |mem| >= 264
  {
    Number(mem[10], mem[11])
  }

  /** The bytes for the bits of a request: whole bytes are read and written. */
  function Octets(mem: seq<Byte>): nat
    requires |mem| >= 264
  {
    (Many(mem) + 7) / 8
  }

  /** A number of cells from the address on that does not end behind the last one. */
  predicate Beyond(mem: seq<Byte>, cells: nat, last: nat)
    requires |mem| >= 264
  {
    cells > 0 && From(mem) + cells > last
  }

  /** The exception code of the reply, or 0 for a request that is served. */
  function Code(mem: seq<Byte>, size: nat): Byte
    requires |mem| >= 264
  {
    if size < 8 then 1
    else if mem[7] == 1 || mem[7] == 2 then
      if size < 12 then 3 else if Many(mem) > 2040 || Beyond(mem, 8 * Octets(mem), 800) then 2 else 0
    else if mem[7] == 3 then
      if size < 12 then 3 else if Many(mem) > 127 || Beyond(mem, Many(mem), 8192) then 2 else 0
    else if mem[7] == 4 then
      if size < 12 then 3 else if Many(mem) > 127 || Beyond(mem, Many(mem), 1024) then 2 else 0
    else if mem[7] == 5 then
      if size < 12 then 3 else if From(mem) >= 800 then 2 else 0
    else if mem[7] == 6 then
      if size < 12 then 3 else if From(mem) >= 8192 then 2 else 0
    else if mem[7] == 15 then
      if size < 13 + Octets(mem) || mem[12] != Octets(mem) then 3
      else if Beyond(mem, 8 * Octets(mem), 800) then 2 else 0
    else if mem[7] == 16 then
      if size < 13 + 2 * Many(mem) || mem[12] != 2 * Many(mem) then 3
      else if Beyond(mem, Many(mem), 8192) then 2 else 0
    else 1
  }

  /** The bytes of a refusal: the highest bit of the function code is set. */
  ghost predicate Refusal(mem: seq<Byte>, code: Byte, reply: seq<Byte>)
    requires |mem| >= 264
  {
    && |reply| == 9 && reply[..4] == mem[..4]
    && reply[4] == 0 && reply[5] == 3 && reply[6] == mem[6]
    && reply[7] == (if mem[7] < 128 then mem[7] + 128 else mem[7])
    && reply[8] == code
  }

  /** The acknowledgement of a write: twelve bytes of the request under a length of six. */
  ghost predicate Acknowledgement(mem: seq<Byte>, reply: seq<Byte>)
    requires |mem| >= 264
  {
    |reply| == 12 && reply[..4] == mem[..4] && reply[4] == 0 && reply[5] == 6 && reply[6..12] == mem[6..12]
  }

  /** The front of a reply with data: its length, the function code as it was, and the byte count. */
  ghost predicate DataFront(mem: seq<Byte>, bytes: nat, reply: seq<Byte>)
    requires |mem| >= 264
  {
    && |reply| == 9 + bytes && reply[..4] == mem[..4]
    && Number(reply[4], reply[5]) == bytes + 3
    && reply[6] == mem[6] && reply[7] == mem[7] && reply[8] == bytes
  }

  ghost predicate Replied(mem: seq<Byte>, size: nat, reply: seq<Byte>)
    requires |mem| >= 264
  {
    if Code(mem, size) != 0 then Refusal(mem, Code(mem, size), reply)
    else if mem[7] in {1, 2} then DataFront(mem, Octets(mem), reply)
    else if mem[7] in {3, 4} then DataFront(mem, 2 * Many(mem), reply)
    else Acknowledgement(mem, reply)
  }

  lemma HighBitIsSet(b: Byte)
    ensures WithHighBit(b) == if b < 128 then b + 128 else b
  {
    ShlSeven();
    if b < 128 {
      OrDisjoint(b, 1, 7);
    } else {
      OrDisjoint(b - 128, 1, 7);
      OrAgain(b - 128, 0x80);
    }
  }

  lemma ShlSeven()
    ensures Shl(1, 7) == 0x80
  {
    assert Shl(1, 4) == 16;
  }

  lemma OrAgain(a: Byte, b: Byte)
    ensures Or(Or(a, b), b) == Or(a, b)
  {
    ShlEight();
    OrBound(a, b, 8);
    OrBound(Or(a, b), b, 8);
    forall k: nat | k < 8 ensures Bit(Or(Or(a, b), b), k) == Bit(Or(a, b), k) {
      OrBit(Or(a, b), b, k);
      OrBit(a, b, k);
    }
    SameBits(8, Or(Or(a, b), b), Or(a, b));
  }

  lemma RefusalBytes(mem: seq<Byte>, code: Byte)
    requires |mem| >= 264
    ensures Refusal(mem, code, ErrorReply(mem, code))
  {
    hide WithHighBit;
    HighBitIsSet(mem[7]);
  }

  lemma AcknowledgementBytes(mem: seq<Byte>)
    requires |mem| >= 264
    ensures Acknowledgement(mem, EchoReply(mem))
  {
  }

  lemma DataBytes(mem: seq<Byte>, data: seq<Byte>)
    requires |mem| >= 264 && |data| <= 255
    ensures DataFront(mem, |data|, DataReply(mem, data))
  {
  }

  lemma Quantities(mem: seq<Byte>)
    requires |mem| >= 264
    ensures Start(mem) == From(mem) && Second(mem) == Many(mem) && ByteCount(Second(mem)) == Octets(mem)
    ensures (Octets(mem) > 255 <==> Many(mem) > 2040) && (Octets(mem) > 0 <==> Many(mem) > 0)
  {
  }

  /**
   Every request, well-formed or not, is refused with the code of the table above in a reply of
   nine bytes, or served with a reply whose function code is that of the request.
   */
  lemma EveryReply(m: Image, mem: seq<Byte>, size: nat)
    requires |mem| >= 264 && size <= |mem| && m.Valid() && Runs(m, mem, size)
    ensures Replied(mem, size, Answer(m, mem, size).reply)
  {
    hide ErrorReply, DataReply, EchoReply, CoilBytes, HoldingBytes, InputBytes, DefiniteBlock, AfterBlock, StoreBits;
    hide Store, Refusal, DataFront, Acknowledgement, Start, Second, ByteCount, From, Many, Octets, InBounds;
    Quantities(mem);
    RefusalBytes(mem, 1);
    RefusalBytes(mem, 2);
    RefusalBytes(mem, 3);
    AcknowledgementBytes(mem);
    DataBytes(mem, []);
    if Code(mem, size) == 0 && Many(mem) > 0 {
      if mem[7] == 1 {
        DataBytes(mem, CoilBytes(m.boolOutput, Start(mem), Octets(mem)));
      } else if mem[7] == 2 {
        DataBytes(mem, CoilBytes(m.boolInput, Start(mem), Octets(mem)));
      } else if mem[7] == 3 {
        DataBytes(mem, HoldingBytes(m, Start(mem), Many(mem)));
      } else if mem[7] == 4 {
        DataBytes(mem, InputBytes(m, Start(mem), Many(mem)));
      }
    }
  }

  // ---------- what stands in the data of a reply ----------

  /** Bit `k` of the data of a reply, least significant bit of the first byte first. */
  predicate DataBit(reply: seq<Byte>, k: nat) {
    9 + k / 8 < |reply| && Bit(reply[9 + k / 8], k % 8)
  }

  /** Function code 1 reads the coils and 2 the discrete inputs, one bit each, off where nothing is mapped. */
  lemma BitsAreReturned(m: Image, read: seq<Byte>, size: nat, k: nat)
    requires |read| >= 264 && size <= |read| && m.Valid() && read[7] in {1, 2}
    requires Code(read, size) == 0 && k < 8 * Octets(read)
    ensures From(read) + k < 800
    ensures var cell := if read[7] == 1 then m.boolOutput[From(read) + k] else m.boolInput[From(read) + k];
      DataBit(Answer(m, read, size).reply, k) <==> cell.Mapped? && cell.value != 0
  {
    hide Bit, Answer, Code, DataReply, CoilBytes, CoilByte;
    var table := if read[7] == 1 then m.boolOutput else m.boolInput;
    BitsReply(m, read, size);
    CoilBitAt(table, From(read), Octets(read), k);
    DataAt(read, CoilBytes(table, From(read), Octets(read)), k / 8);
    hide From, Octets;
  }

  lemma BitsReply(m: Image, read: seq<Byte>, size: nat)
    requires |read| >= 264 && size <= |read| && m.Valid() && read[7] in {1, 2}
    requires Code(read, size) == 0 && Octets(read) > 0
    ensures From(read) + 8 * Octets(read) <= 800 && Octets(read) <= 255
    ensures var table := if read[7] == 1 then m.boolOutput else m.boolInput;
      Answer(m, read, size).reply == DataReply(read, CoilBytes(table, From(read), Octets(read)))
  {
    hide CoilBytes, DataReply, ErrorReply, DefiniteBlock, InBounds;
    Quantities(read);
    hide Start, Second, ByteCount, From, Many, Octets;
  }

  lemma CoilBitAt(table: seq<Cell<Byte>>, start: nat, n: nat, k: nat)
    requires start + 8 * n <= |table| && k < 8 * n
    ensures k / 8 < n && Bit(CoilBytes(table, start, n)[k / 8], k % 8) == On(table[start + k])
  {
    CoilBytesAt(table, start, n, k / 8);
    CoilByteBit(table, start + 8 * (k / 8), k % 8);
    hide CoilBytes, CoilByte, Bit;
    assert start + 8 * (k / 8) + k % 8 == start + k;
  }

  /** The word behind a register address: four ranges, wider variables high word first. */
  function RegisterWord(m: Image, p: nat): int
    requires m.Valid() && p < 8192 && p != 1024
  {
    if p < 1024 then (if m.intOutput[p].Mapped? then m.intOutput[p].value else 0)
    else if p < 2048 then (if m.intMemory[p - 1024].Mapped? then m.intMemory[p - 1024].value else 0)
    else if p < 4096 then
      match m.dintMemory[(p - 2048) / 2]
      case Unmapped => m.holdingRegs[p]
      case Mapped(v) => if p % 2 == 0 then v / 0x1_0000 else v % 0x1_0000
    else
      match m.lintMemory[(p - 4096) / 4]
      case Unmapped => m.holdingRegs[p]
      case Mapped(v) => Quarter(v, p % 4)
  }

  function Quarter(v: LWord, k: int): int {
    if k == 0 then v / 0x1_0000_0000_0000
    else if k == 1 then v / 0x1_0000_0000 % 0x1_0000
    else if k == 2 then v / 0x1_0000 % 0x1_0000
    else v % 0x1_0000
  }

  lemma RegisterMap(m: Image, p: nat)
    requires m.Valid() && Address(p)
    ensures Stored(m, p) == RegisterWord(m, p)
  {
    hide Part;
    if 2048 <= p < 4096 && m.dintMemory[(p - 2048) / 2].Mapped? {
      Halves(m.dintMemory[(p - 2048) / 2].value);
    } else if 4096 <= p && m.lintMemory[(p - 4096) / 4].Mapped? {
      Quarters(m.lintMemory[(p - 4096) / 4].value);
    }
  }

  lemma Halves(v: DWord)
    ensures Part(v, 16) == v / 0x1_0000 && Part(v, 0) == v % 0x1_0000
  {
    hide Part, Shl;
    Powers();
    PartIsDigit(v, 16);
    PartIsDigit(v, 0);
    ValueDigits(v);
  }

  lemma Quarters(v: LWord)
    ensures Part(v, 48) == Quarter(v, 0) && Part(v, 32) == Quarter(v, 1)
    ensures Part(v, 16) == Quarter(v, 2) && Part(v, 0) == Quarter(v, 3)
  {
    hide Part, Shl;
    Powers();
    PartIsDigit(v, 48);
    PartIsDigit(v, 32);
    PartIsDigit(v, 16);
    PartIsDigit(v, 0);
  }

  /** The two bytes at register `i` of a reply. */
  predicate DataPair(reply: seq<Byte>, i: nat, high: int, low: int) {
    10 + 2 * i < |reply| && reply[9 + 2 * i] == high && reply[10 + 2 * i] == low
  }

  /**
   Function code 3 returns the words of the registers, high byte first; for an address of a 32- or
   64-bit variable that is not there it returns the low byte of the spare register twice.
   */
  lemma RegistersAreReturned(m: Image, read: seq<Byte>, size: nat, i: nat)
    requires |read| >= 264 && size <= |read| && m.Valid() && read[7] == 3 && Runs(m, read, size)
    requires Code(read, size) == 0 && i < Many(read)
    ensures Address(From(read) + i)
    ensures var p, w := From(read) + i, RegisterWord(m, From(read) + i);
      DataPair(Answer(m, read, size).reply, i, if Spare(m, p) then w % 256 else w / 256, w % 256)
  {
    hide Stored, RegisterWord, Spare;
    RegisterMap(m, From(read) + i);
    ReadWord(m, read, size, i);
  }

  // ---------- what a request does to the image ----------

  /** A read, and a request that is refused for its form, leave everything as it was. */
  lemma NothingChanged(m: Image, mem: seq<Byte>, size: nat)
    requires |mem| >= 264 && size <= |mem| && m.Valid() && Runs(m, mem, size)
    requires Code(mem, size) in {1, 3} || mem[7] in {1, 2, 3, 4} || (mem[7] in {5, 6} && Code(mem, size) == 2)
    ensures Answer(m, mem, size).image == m
  {
    hide ErrorReply, DataReply, EchoReply, CoilBytes, HoldingBytes, InputBytes, DefiniteBlock, AfterBlock, StoreBits;
    hide Store, InBounds;
    Quantities(mem);
    hide Start, Second, ByteCount, From, Many, Octets;
  }

  /** A write of coils, refused for its address or not: every coil inside the table gets its bit if it is mapped. */
  lemma CoilsAreWritten(m: Image, mem: seq<Byte>, size: nat, q: nat)
    requires |mem| >= 264 && size <= |mem| && m.Valid() && mem[7] == 15 && Code(mem, size) in {0, 2} && q < 8192
    ensures var now, k := Answer(m, mem, size).image, q - From(mem);
      && now == m.(boolOutput := now.boolOutput) && |now.boolOutput| == 8192
      && now.boolOutput[q] ==
           if 0 <= k < 8 * Octets(mem) && q < 800 && m.boolOutput[q].Mapped?
           then Mapped(if Bit(mem[13 + k / 8], k % 8) then 1 else 0) else m.boolOutput[q]
  {
    hide Answer, Bit, StoreBits, Second, Start, ByteCount;
    Quantities(mem);
    var n := Octets(mem);
    CoilsAfterWrite(m, mem, size);
    StoredAt(m.boolOutput, From(mem), mem[13..13 + n], q);
    var k := q - From(mem);
    if 0 <= k < 8 * n { assert mem[13..13 + n][k / 8] == mem[13 + k / 8]; }
  }

  lemma StoredAt(table: seq<Cell<Byte>>, start: nat, data: seq<Byte>, q: nat)
    requires |table| == 8192 && q < 8192
    ensures var now, k := StoreBits(table, start, data, 8 * |data|), q - start;
      && |now| == 8192
      && now[q] ==
           if 0 <= k < 8 * |data| && q < 800 && table[q].Mapped?
           then Mapped(if Bit(data[k / 8], k % 8) then 1 else 0) else table[q]
  {
    hide Bit;
  }

  /** A write of one register stores its word there if anything is mapped, and no other register changes. */
  lemma RegisterIsWritten(m: Image, mem: seq<Byte>, size: nat, q: nat)
    requires |mem| >= 264 && size <= |mem| && m.Valid() && mem[7] == 6 && Runs(m, mem, size)
    requires Code(mem, size) == 0 && Address(q)
    ensures var now := Answer(m, mem, size).image;
      && now.Valid() && SameMapping(m, now)
      && RegisterWord(now, q) == if q == From(mem) && Held(m, q) then Many(mem) else RegisterWord(m, q)
  {
    hide Store, Stored, RegisterWord, Held, EchoReply, ErrorReply, DefiniteBlock;
    StoreMapping(m, Start(mem), Second(mem));
    StoreStored(m, Start(mem), Second(mem), q);
    RegisterMap(m, q);
    RegisterMap(Store(m, Start(mem), Second(mem)), q);
  }

  /** What a register holds after the step at address `p` of a block from `start`. */
  function StepWord(m: Image, start: nat, p: nat, w: Word, count: Word, q: nat): Word
    requires m.Valid() && Definite(m, start, p) && Address(q)
  {
    if p < 2048 || (p < 4096 && m.dintMemory[if start < 2048 then 0 else (start - 2048) / 2].Mapped?) then
      if q == p && Held(m, p) then w else Stored(m, q)
    else if p < 4096 then
      if q == p && Spare(m, p) then w else Stored(m, q)
    else if m.lintMemory[(p - 4096) / 4].Unmapped? then
      if q == start && Spare(m, q) then count else Stored(m, q)
    else if p % 4 == 0 then
      if q == p then w else Stored(m, q)
    else if start > 4096 && start % 4 != 0 then
      if q == p - p % 4 + start % 4 then w else Stored(m, q)
    else Stored(m, q)
  }

  lemma SpareStored(m: Image, p: nat, w: Word, q: nat)
    requires m.Valid() && Address(q) && p < 8192
    ensures var r := m.(holdingRegs := m.holdingRegs[p := w]);
      Stored(r, q) == if q == p && Spare(m, q) then w else Stored(m, q)
  {
  }

  lemma PartStored(m: Image, i: nat, k: nat, w: Word, q: nat)
    requires m.Valid() && Address(q) && i < 1024 && m.lintMemory[i].Mapped? && k < 4
    ensures WithPart(m, i, k, w).Valid()
    ensures Stored(WithPart(m, i, k, w), q) == if q == 4096 + 4 * i + k then w else Stored(m, q)
  {
    hide Part, Set64, Shift64;
    if q >= 4096 && (q - 4096) / 4 == i { Set64Part(m.lintMemory[i].value, k, w, q % 4); }
  }

  lemma NarrowStep(m: Image, start: nat, p: nat, w: Word, count: Word, q: nat)
    requires m.Valid() && Definite(m, start, p) && Address(q) && p < 4096
    ensures StoreBlock(m, start, p, w, count).Valid()
    ensures Stored(StoreBlock(m, start, p, w, count), q) == StepWord(m, start, p, w, count, q)
  {
    hide Stored, Set64, Set32, SameMapping, Held, Store;
    StoreStored(m, p, w, q);
    SpareStored(m, p, w, q);
  }

  function WithPart(m: Image, i: nat, k: nat, w: Word): Image
    requires m.Valid() && i < 1024 && m.lintMemory[i].Mapped? && k < 4
  {
    m.(lintMemory := m.lintMemory[i := Mapped(Set64(m.lintMemory[i].value, k, w))])
  }

  lemma WideForm(m: Image, start: nat, p: nat, w: Word, count: Word)
    requires m.Valid() && Definite(m, start, p) && p >= 4096
    ensures var i := (p - 4096) / 4;
      StoreBlock(m, start, p, w, count) ==
        if m.lintMemory[i].Unmapped? then m.(holdingRegs := m.holdingRegs[start := count])
        else if p % 4 == 0 then WithPart(m, i, 0, w)
        else if start > 4096 && start % 4 != 0 then WithPart(m, i, start % 4, w)
        else m
  {
    hide Set64, Set32, Store, Image.Valid;
  }

  lemma WideStep(m: Image, start: nat, p: nat, w: Word, count: Word, q: nat)
    requires m.Valid() && Definite(m, start, p) && Address(q) && p >= 4096
    ensures StoreBlock(m, start, p, w, count).Valid()
    ensures Stored(StoreBlock(m, start, p, w, count), q) == StepWord(m, start, p, w, count, q)
  {
    hide Stored, StoreBlock, Set64;
    WideForm(m, start, p, w, count);
    if m.lintMemory[(p - 4096) / 4].Unmapped? {
      SpareStored(m, start, count, q);
    } else {
      PartStored(m, (p - 4096) / 4, if p % 4 == 0 then 0 else start % 4, w, q);
    }
    hide Spare, Held;
  }

  /** One step of a block write, register by register: the address it stores to, and the word. */
  lemma BlockStepStores(m: Image, start: nat, p: nat, w: Word, count: Word, q: nat)
    requires m.Valid() && Definite(m, start, p) && Address(q)
    ensures StoreBlock(m, start, p, w, count).Valid()
    ensures Stored(StoreBlock(m, start, p, w, count), q) == StepWord(m, start, p, w, count, q)
  {
    hide Stored, StoreBlock, StepWord, Definite, Image.Valid;
    if p < 4096 { NarrowStep(m, start, p, w, count, q); } else { WideStep(m, start, p, w, count, q); }
  }

  /** A served block write whose addresses are all sound stores its words where something is mapped. */
  lemma BlockIsWritten(m: Image, mem: seq<Byte>, size: nat, i: nat)
    requires |mem| >= 264 && size <= |mem| && m.Valid() && mem[7] == 16 && Runs(m, mem, size)
    requires Code(mem, size) == 0 && i < Many(mem)
    requires DefiniteBlock(m, Start(mem), Many(mem)) && SoundThroughout(m, From(mem), Many(mem))
    ensures Address(From(mem) + i) && 14 + 2 * i < |mem|
    ensures var now := Answer(m, mem, size).image;
      now.Valid() && (Held(m, From(mem) + i) ==> RegisterWord(now, From(mem) + i) == Number(mem[13 + 2 * i], mem[14 + 2 * i]))
  {
    hide AfterBlock, After, Stored, LastWrite, RegisterWord, Held, EchoReply, ErrorReply;
    var n, p := Many(mem), From(mem) + i;
    assert Definite(m, From(mem), p);
    forall q | From(mem) <= q < From(mem) + n ensures Definite(m, From(mem), q) && Sound(m, From(mem), q) {
      assert !Unsound(m, From(mem), q);
    }
    hide DefiniteBlock, Definite, Sound, BlockWrites;
    SoundBlock(m, mem, n);
    RegistersRemember(m, BlockWrites(mem, n), p);
    LastOfBlock(mem, n, i);
    RegisterMap(AfterBlock(m, mem, n), p);
  }

  /** Words for addresses behind the last register go nowhere. */
  lemma {:induction false} NothingBehindTheLast(m: Image, mem: seq<Byte>, n: nat)
    requires m.Valid() && |mem| >= 264 && 13 + 2 * n <= |mem| && n <= Second(mem)
    requires DefiniteBlock(m, Start(mem), Second(mem))
    requires n > 0 && From(mem) + n > 8192
    ensures AfterBlock(m, mem, n) == AfterBlock(m, mem, if From(mem) < 8192 then 8192 - From(mem) else 0)
  {
    hide DefiniteBlock, StoreBlock;
    if n > 1 && From(mem) + n - 1 > 8192 { NothingBehindTheLast(m, mem, n - 1); }
  }
}
