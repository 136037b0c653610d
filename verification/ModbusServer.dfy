/**
 The register tables of a server, the operations a request asks for, and what modbus_reply
 does with the bytes of a request buffer. The two meet in `ServeIsApply`.
 */
module ModbusServer {
  import opened Bits
  import opened ModbusFrames

  // ---------- the four tables ----------

  /** One table: its cells answer to the addresses from `start` on. */
  datatype Bank<T> = Bank(start: nat, cells: seq<T>) {
    predicate Holds(addr: int, nb: nat) {
      addr - start >= 0 && addr - start + nb <= |cells|
    }

    function Read(addr: int, nb: nat): (s: seq<T>)
      requires Holds(addr, nb)
      ensures |s| == nb
    {
      cells[addr - start..addr - start + nb]
    }

    function Write(addr: int, values: seq<T>): (b: Bank<T>)
      requires Holds(addr, |values|)
      ensures b.start == start && |b.cells| == |cells|
    {
      this.(cells := cells[..addr - start] + values + cells[addr - start + |values|..])
    }

    /** The cells written hold the values, every other cell is untouched. */
    lemma WriteThenRead(addr: int, values: seq<T>, a: int, n: nat)
      requires Holds(addr, |values|) && Holds(a, n)
      ensures Write(addr, values).Read(addr, |values|) == values
      ensures a + n <= addr || addr + |values| <= a ==> Write(addr, values).Read(a, n) == Read(a, n)
    {
    }
  }

  datatype Tables = Tables(bits: Bank<Byte>, inputBits: Bank<Byte>, registers: Bank<Word>, inputRegisters: Bank<Word>) {
    /** Bit cells hold 0 or 1: true of fresh tables, kept by every request. */
    predicate Valid() {
      AllDigits(bits.cells) && AllDigits(inputBits.cells)
    }

    function BitBank(input: bool): Bank<Byte> {
      if input then inputBits else bits
    }

    function RegisterBank(input: bool): Bank<Word> {
      if input then inputRegisters else registers
    }
  }

  // ---------- what a request means ----------

  datatype Result = BitValues(cells: seq<Byte>) | RegisterValues(values: seq<Word>) | Written | Refused(code: Byte)

  /** (data AND and_mask) OR (or_mask AND NOT and_mask). */
  function MaskWord(data: Word, andMask: Word, orMask: Word): nat {
    Or(And(data, andMask), And(orMask, Complement(andMask)))
  }

  function Masked(data: Word, andMask: Word, orMask: Word): Word {
    MaskWord(data, andMask, orMask) % 0x10000
  }

  /** The direct operation on the tables, in the terms of the protocol's function descriptions. */
  function Apply(t: Tables, r: Request): (Tables, Result) {
    match r
    case ReadBits(input, addr, nb) =>
      if nb < 1 then (t, Refused(ILLEGAL_DATA_VALUE))
      else if !t.BitBank(input).Holds(addr, nb) then (t, Refused(ILLEGAL_DATA_ADDRESS))
      else (t, BitValues(t.BitBank(input).Read(addr, nb)))
    case ReadRegisters(input, addr, nb) =>
      if nb < 1 then (t, Refused(ILLEGAL_DATA_VALUE))
      else if !t.RegisterBank(input).Holds(addr, nb) then (t, Refused(ILLEGAL_DATA_ADDRESS))
      else (t, RegisterValues(t.RegisterBank(input).Read(addr, nb)))
    case WriteBit(addr, on) =>
      if !t.bits.Holds(addr, 1) then (t, Refused(ILLEGAL_DATA_ADDRESS))
      else (t.(bits := t.bits.Write(addr, Cells([on]))), Written)
    case WriteRegister(addr, value) =>
      if !t.registers.Holds(addr, 1) then (t, Refused(ILLEGAL_DATA_ADDRESS))
      else (t.(registers := t.registers.Write(addr, [value])), Written)
    case WriteBits(addr, bits) =>
      if |bits| < 1 then (t, Refused(ILLEGAL_DATA_VALUE))
      else if !t.bits.Holds(addr, |bits|) then (t, Refused(ILLEGAL_DATA_ADDRESS))
      else (t.(bits := t.bits.Write(addr, Cells(bits))), Written)
    case WriteRegisters(addr, values) =>
      if |values| < 1 then (t, Refused(ILLEGAL_DATA_VALUE))
      else if !t.registers.Holds(addr, |values|) then (t, Refused(ILLEGAL_DATA_ADDRESS))
      else (t.(registers := t.registers.Write(addr, values)), Written)
    case MaskWrite(addr, andMask, orMask) =>
      if !t.registers.Holds(addr, 1) then (t, Refused(ILLEGAL_DATA_ADDRESS))
      else
        var data := t.registers.Read(addr, 1)[0];
        (t.(registers := t.registers.Write(addr, [Masked(data, andMask, orMask)])), Written)
    case WriteAndRead(writeAddr, values, addr, nb) =>
      if |values| < 1 || nb < 1 then (t, Refused(ILLEGAL_DATA_VALUE))
      else if !t.registers.Holds(addr, nb) || !t.registers.Holds(writeAddr, |values|) then (t, Refused(ILLEGAL_DATA_ADDRESS))
      else
        var registers := t.registers.Write(writeAddr, values);
        (t.(registers := registers), RegisterValues(registers.Read(addr, nb)))
  }

  // ---------- what modbus_reply does ----------

  /** Echo: the request itself is sent back. OutOfBounds: a cell before the table would be written. */
  datatype Outcome = Answer(pdu: seq<Byte>) | Echo | Unimplemented | OutOfBounds

  function Exception(function_: Byte, code: Byte): Outcome {
    Answer([(function_ + 0x80) % 0x100, code])
  }

  function ServeReadBits(bank: Bank<Byte>, p: seq<Byte>): (o: Outcome)
    requires |p| >= MAX_PDU_LENGTH
    ensures o.Answer?
  {
    var addr, nb := Join(p[1], p[2]), Join(p[3], p[4]);
    if nb < 1 || MAX_READ_BITS < nb then Exception(p[0], ILLEGAL_DATA_VALUE)
    else if !bank.Holds(addr, nb) then Exception(p[0], ILLEGAL_DATA_ADDRESS)
    else Answer([p[0], ByteCount(nb)] + PackCells(bank.Read(addr, nb)))
  }

  function ServeReadRegisters(bank: Bank<Word>, p: seq<Byte>): (o: Outcome)
    requires |p| >= MAX_PDU_LENGTH
    ensures o.Answer?
  {
    var addr, nb := Join(p[1], p[2]), Join(p[3], p[4]);
    if nb < 1 || MAX_READ_REGISTERS < nb then Exception(p[0], ILLEGAL_DATA_VALUE)
    else if !bank.Holds(addr, nb) then Exception(p[0], ILLEGAL_DATA_ADDRESS)
    else Answer([p[0], 2 * nb] + Words(bank.Read(addr, nb)))
  }

  function ServeWriteBit(bank: Bank<Byte>, p: seq<Byte>): (r: (Bank<Byte>, Outcome))
    requires |p| >= MAX_PDU_LENGTH
    ensures r.1.Answer? || r.1.Echo?
  {
    var addr, data := Join(p[1], p[2]), Join(p[3], p[4]);
    if !bank.Holds(addr, 1) then (bank, Exception(p[0], ILLEGAL_DATA_ADDRESS))
    else if data == 0xFF00 || data == 0 then (bank.Write(addr, [if data != 0 then 1 else 0]), Echo)
    else (bank, Exception(p[0], ILLEGAL_DATA_VALUE))
  }

  function ServeWriteRegister(bank: Bank<Word>, p: seq<Byte>): (r: (Bank<Word>, Outcome))
    requires |p| >= MAX_PDU_LENGTH
    ensures r.1.Answer? || r.1.Echo?
  {
    var addr := Join(p[1], p[2]);
    if !bank.Holds(addr, 1) then (bank, Exception(p[0], ILLEGAL_DATA_ADDRESS))
    else (bank.Write(addr, [Join(p[3], p[4])]), Echo)
  }

  function ServeWriteBits(bank: Bank<Byte>, p: seq<Byte>): (r: (Bank<Byte>, Outcome))
    requires |p| >= MAX_PDU_LENGTH
    ensures r.1.Answer? || r.1.Echo?
  {
    var addr, nb := Join(p[1], p[2]), Join(p[3], p[4]);
    if nb < 1 || MAX_WRITE_BITS < nb then (bank, Exception(p[0], ILLEGAL_DATA_VALUE))
    else if !bank.Holds(addr, nb) then (bank, Exception(p[0], ILLEGAL_DATA_ADDRESS))
    else (bank.Write(addr, UnpackCells(p[6..], nb)), Answer(p[..5]))
  }

  function ServeWriteRegisters(bank: Bank<Word>, p: seq<Byte>): (r: (Bank<Word>, Outcome))
    requires |p| >= MAX_PDU_LENGTH
    ensures r.1.Answer? || r.1.Echo?
  {
    var addr, nb := Join(p[1], p[2]), Join(p[3], p[4]);
    if nb < 1 || MAX_WRITE_REGISTERS < nb then (bank, Exception(p[0], ILLEGAL_DATA_VALUE))
    else if !bank.Holds(addr, nb) then (bank, Exception(p[0], ILLEGAL_DATA_ADDRESS))
    else (bank.Write(addr, ReadWords(p[6..], nb)), Answer(p[..5]))
  }

  function ServeMaskWrite(bank: Bank<Word>, p: seq<Byte>): (r: (Bank<Word>, Outcome))
    requires |p| >= MAX_PDU_LENGTH
    ensures r.1.Answer? || r.1.Echo?
  {
    var addr := Join(p[1], p[2]);
    if !bank.Holds(addr, 1) then (bank, Exception(p[0], ILLEGAL_DATA_ADDRESS))
    else
      var data := bank.Read(addr, 1)[0];
      (bank.Write(addr, [Masked(data, Join(p[3], p[4]), Join(p[5], p[6]))]), Echo)
  }

  /** The guard tests the read address twice and the start of the write range never. */
  function ServeWriteAndRead(bank: Bank<Word>, p: seq<Byte>): (r: (Bank<Word>, Outcome))
    requires |p| >= MAX_PDU_LENGTH
    ensures r.1.Answer? || r.1.OutOfBounds?
  {
    var addr, nb := Join(p[1], p[2]), Join(p[3], p[4]);
    var writeAddr, nbWrite := Join(p[5], p[6]), Join(p[7], p[8]);
    if nbWrite < 1 || MAX_WR_WRITE_REGISTERS < nbWrite || nb < 1 || MAX_WR_READ_REGISTERS < nb || p[9] != nbWrite * 2 then
      (bank, Exception(p[0], ILLEGAL_DATA_VALUE))
    else if !bank.Holds(addr, nb) || writeAddr - bank.start + nbWrite > |bank.cells| then
      (bank, Exception(p[0], ILLEGAL_DATA_ADDRESS))
    else if writeAddr < bank.start then (bank, OutOfBounds)
    else
      var written := bank.Write(writeAddr, ReadWords(p[10..], nbWrite));
      (written, Answer([p[0], 2 * nb] + Words(written.Read(addr, nb))))
  }

  const SLAVE_ID: Byte := 180

  /**
   The switch of modbus_reply. `p` is the request buffer from the function byte on: a full
   buffer, of which a short frame fills only the beginning. `id` is "LMB" and the version.
   */
  function Serve(t: Tables, p: seq<Byte>, id: seq<Byte>): (Tables, Outcome)
    requires |p| >= MAX_PDU_LENGTH && |id| <= 240
  {
    if p[0] == READ_COILS then (t, ServeReadBits(t.bits, p))
    else if p[0] == READ_DISCRETE_INPUTS then (t, ServeReadBits(t.inputBits, p))
    else if p[0] == READ_HOLDING_REGISTERS then (t, ServeReadRegisters(t.registers, p))
    else if p[0] == READ_INPUT_REGISTERS then (t, ServeReadRegisters(t.inputRegisters, p))
    else if p[0] == WRITE_SINGLE_COIL then
      var (bank, o) := ServeWriteBit(t.bits, p); (t.(bits := bank), o)
    else if p[0] == WRITE_SINGLE_REGISTER then
      var (bank, o) := ServeWriteRegister(t.registers, p); (t.(registers := bank), o)
    else if p[0] == WRITE_MULTIPLE_COILS then
      var (bank, o) := ServeWriteBits(t.bits, p); (t.(bits := bank), o)
    else if p[0] == WRITE_MULTIPLE_REGISTERS then
      var (bank, o) := ServeWriteRegisters(t.registers, p); (t.(registers := bank), o)
    else if p[0] == REPORT_SLAVE_ID then (t, Answer([p[0], 2 + |id|, SLAVE_ID, 0xFF] + id))
    else if p[0] == READ_EXCEPTION_STATUS then (t, Unimplemented)
    else if p[0] == MASK_WRITE_REGISTER then
      var (bank, o) := ServeMaskWrite(t.registers, p); (t.(registers := bank), o)
    else if p[0] == WRITE_AND_READ_REGISTERS then
      var (bank, o) := ServeWriteAndRead(t.registers, p); (t.(registers := bank), o)
    else (t, Exception(p[0], ILLEGAL_FUNCTION))
  }

  // ---------- serving a request is applying it ----------

  /** The reply a request should get. */
  function ReplyPdu(r: Request, result: Result): seq<Byte>
    requires r.Buildable()
  {
    match result
    case Refused(code) => [r.Function() + 0x80, code]
    case BitValues(cells) => [r.Function(), ByteCount(|cells|) % 0x100] + PackCells(cells)
    case RegisterValues(values) => [r.Function(), (2 * |values|) % 0x100] + Words(values)
    case Written => if r.WriteBits? || r.WriteRegisters? then r.Encode()[..5] else r.Encode()
  }

  /** The one kind of request the address guard lets through wrongly. */
  predicate Escapes(t: Tables, r: Request) {
    && r.WriteAndRead? && |r.values| >= 1 && r.nb >= 1
    && t.registers.Holds(r.addr, r.nb)
    && r.writeAddr < t.registers.start
    && r.writeAddr - t.registers.start + |r.values| <= |t.registers.cells|
  }

  function ReplyBytes(o: Outcome, request: seq<Byte>): seq<Byte>
    requires o.Answer? || o.Echo?
  {
    if o.Echo? then request else o.pdu
  }

  lemma Fields(r: Request, p: seq<Byte>)
    requires r.Buildable() && |p| >= MAX_PDU_LENGTH && r.Encode() <= p
    ensures p[0] == r.Function() && Join(p[1], p[2]) == r.addr && Join(p[3], p[4]) == r.Count()
    ensures p[..5] == r.Encode()[..5]
    ensures p[5..] == r.Tail() + p[|r.Encode()|..]
  {
    hide Hi, Lo, Join, r.Function, r.Count, r.Tail;
    var e := r.Encode();
    var f := Basis(r.Function(), r.addr, r.Count());
    assert e == f + r.Tail();
    assert p == e + p[|e|..];
    assert forall i :: 0 <= i < 5 ==> p[i] == f[i];
    JoinParts(r.addr);
    JoinParts(r.Count());
  }

  lemma ReadIsServed(t: Tables, r: Request, p: seq<Byte>, id: seq<Byte>)
    requires r.ReadBits? || r.ReadRegisters?
    requires r.Buildable() && |p| >= MAX_PDU_LENGTH && r.Encode() <= p && |id| <= 240
    ensures Served(t, r, p, id)
  {
    Fields(r, p);
    if r.ReadBits? { ReadBitsServed(t, r, p, id); } else { ReadRegistersServed(t, r, p, id); }
  }

  /** The buffer starts with the request's function, address and count. */
  predicate Starts(r: Request, p: seq<Byte>)
    requires r.Buildable()
  {
    && |p| >= MAX_PDU_LENGTH && p[0] == r.Function()
    && Join(p[1], p[2]) == r.addr && Join(p[3], p[4]) == r.Count()
  }

  lemma ReadBitsServed(t: Tables, r: Request, p: seq<Byte>, id: seq<Byte>)
    requires r.Buildable() && r.ReadBits? && Starts(r, p) && |id| <= 240
    ensures Served(t, r, p, id)
  {
    hide Join, PackCells, Words, r.Encode, ServeReadRegisters, ServeWriteBit, ServeWriteRegister, ServeWriteBits;
    hide ServeWriteRegisters, ServeMaskWrite, ServeWriteAndRead;
  }

  lemma ReadRegistersServed(t: Tables, r: Request, p: seq<Byte>, id: seq<Byte>)
    requires r.Buildable() && r.ReadRegisters? && Starts(r, p) && |id| <= 240
    ensures Served(t, r, p, id)
  {
    hide Join, PackCells, Words, r.Encode, ServeReadBits, ServeWriteBit, ServeWriteRegister, ServeWriteBits;
    hide ServeWriteRegisters, ServeMaskWrite, ServeWriteAndRead;
  }

  lemma WriteOneIsServed(t: Tables, r: Request, p: seq<Byte>, id: seq<Byte>)
    requires r.WriteBit? || r.WriteRegister?
    requires r.Buildable() && |p| >= MAX_PDU_LENGTH && r.Encode() <= p && |id| <= 240
    ensures Served(t, r, p, id)
  {
    hide Join, r.Encode;
    Fields(r, p);
    if r.WriteBit? {
      assert Cells([r.on]) == [if r.on then 1 else 0];
    }
  }

  lemma WriteBitsIsServed(t: Tables, r: Request, p: seq<Byte>, id: seq<Byte>)
    requires r.WriteBits?
    requires r.Buildable() && |p| >= MAX_PDU_LENGTH && r.Encode() <= p && |id| <= 240
    ensures Served(t, r, p, id)
  {
    hide Join, PackBits, UnpackCells, r.Encode;
    Fields(r, p);
    var more := p[|r.Encode()|..];
    assert p[6..] == p[5..][1..] == PackBits(r.bits) + more;
    UnpackOfPack(r.bits, more);
  }

  lemma WriteRegistersIsServed(t: Tables, r: Request, p: seq<Byte>, id: seq<Byte>)
    requires r.WriteRegisters?
    requires r.Buildable() && |p| >= MAX_PDU_LENGTH && r.Encode() <= p && |id| <= 240
    ensures Served(t, r, p, id)
  {
    hide Join, Words, ReadWords, r.Encode;
    Fields(r, p);
    var more := p[|r.Encode()|..];
    assert p[6..] == p[5..][1..] == Words(r.values) + more;
    ReadWordsOfWords(r.values, more);
  }

  lemma MaskWriteIsServed(t: Tables, r: Request, p: seq<Byte>, id: seq<Byte>)
    requires r.MaskWrite?
    requires r.Buildable() && |p| >= MAX_PDU_LENGTH && r.Encode() <= p && |id| <= 240
    ensures Served(t, r, p, id)
  {
    hide Join, Hi, Lo, Masked, r.Encode;
    Fields(r, p);
    assert p[5] == p[5..][0] && p[6] == p[5..][1];
    JoinParts(r.orMask);
  }

  lemma WriteAndReadIsServed(t: Tables, r: Request, p: seq<Byte>, id: seq<Byte>)
    requires r.WriteAndRead?
    requires r.Buildable() && |p| >= MAX_PDU_LENGTH && r.Encode() <= p && |id| <= 240
    ensures Served(t, r, p, id)
  {
    Fields(r, p);
    WriteAndReadFields(r, p);
    WriteAndReadServed(t, r, p, id);
  }

  lemma WriteAndReadServed(t: Tables, r: Request, p: seq<Byte>, id: seq<Byte>)
    requires r.Buildable() && r.WriteAndRead? && Starts(r, p) && |id| <= 240
    requires Join(p[5], p[6]) == r.writeAddr && Join(p[7], p[8]) == |r.values| && p[9] == 2 * |r.values|
    requires 10 + 2 * |r.values| <= |p| && ReadWords(p[10..], |r.values|) == r.values
    ensures Served(t, r, p, id)
  {
    hide Join, Words, ReadWords, PackCells, r.Encode, ServeReadBits, ServeReadRegisters, ServeWriteBit;
    hide ServeWriteRegister, ServeWriteBits, ServeWriteRegisters, ServeMaskWrite;
    assert Serve(t, p, id) ==
      (t.(registers := ServeWriteAndRead(t.registers, p).0), ServeWriteAndRead(t.registers, p).1);
    hide Serve;
  }

  lemma WriteAndReadFields(r: Request, p: seq<Byte>)
    requires r.WriteAndRead?
    requires r.Buildable() && |p| >= MAX_PDU_LENGTH && r.Encode() <= p
    ensures Join(p[5], p[6]) == r.writeAddr && Join(p[7], p[8]) == |r.values| && p[9] == 2 * |r.values|
    ensures 10 + 2 * |r.values| <= |p| && ReadWords(p[10..], |r.values|) == r.values
  {
    hide Join, Hi, Lo, Words, ReadWords, r.Encode;
    Fields(r, p);
    var more, q := p[|r.Encode()|..], p[5..];
    assert p[5] == q[0] && p[6] == q[1] && p[7] == q[2] && p[8] == q[3] && p[9] == q[4];
    assert p[10..] == q[5..] == Words(r.values) + more;
    JoinParts(r.writeAddr);
    JoinParts(|r.values|);
    ReadWordsOfWords(r.values, more);
  }

  predicate Served(t: Tables, r: Request, p: seq<Byte>, id: seq<Byte>)
    requires r.Buildable() && |p| >= MAX_PDU_LENGTH && |id| <= 240
  {
    var (t', o) := Serve(t, p, id);
    var (applied, result) := Apply(t, r);
    if Escapes(t, r) then o.OutOfBounds?
    else (o.Answer? || o.Echo?) && t' == applied && ReplyBytes(o, r.Encode()) == ReplyPdu(r, result)
  }

  /**
   On every request but the escaping kind, the server does the direct operation and answers
   with its result; on that kind it would write in front of the table.
   */
  lemma ServeIsApply(t: Tables, r: Request, p: seq<Byte>, id: seq<Byte>)
    requires r.Buildable() && |p| >= MAX_PDU_LENGTH && r.Encode() <= p && |id| <= 240
    ensures Served(t, r, p, id)
  {
    hide Served, r.Encode;
    match r
    case ReadBits(_, _, _) => ReadIsServed(t, r, p, id);
    case ReadRegisters(_, _, _) => ReadIsServed(t, r, p, id);
    case WriteBit(_, _) => WriteOneIsServed(t, r, p, id);
    case WriteRegister(_, _) => WriteOneIsServed(t, r, p, id);
    case WriteBits(_, _) => WriteBitsIsServed(t, r, p, id);
    case WriteRegisters(_, _) => WriteRegistersIsServed(t, r, p, id);
    case MaskWrite(_, _, _) => MaskWriteIsServed(t, r, p, id);
    case WriteAndRead(_, _, _, _) => WriteAndReadIsServed(t, r, p, id);
  }

  // ---------- what every request keeps ----------

  predicate SameShape(t: Tables, t': Tables) {
    && t'.bits.start == t.bits.start && |t'.bits.cells| == |t.bits.cells|
    && t'.registers.start == t.registers.start && |t'.registers.cells| == |t.registers.cells|
    && t'.inputBits == t.inputBits && t'.inputRegisters == t.inputRegisters
  }

  /** Any bytes at all, not only a client's: the read-only tables stay, bit cells stay 0 or 1. */
  lemma ServeKeepsValid(t: Tables, p: seq<Byte>, id: seq<Byte>)
    requires t.Valid() && |p| >= MAX_PDU_LENGTH && |id| <= 240
    ensures Serve(t, p, id).0.Valid() && SameShape(t, Serve(t, p, id).0)
  {
    hide Join, PackCells, Words, ReadWords, Masked;
  }

  /** The mask takes each bit from the register where the AND mask is set, from the OR mask elsewhere. */
  lemma MaskedBit(data: Word, andMask: Word, orMask: Word, k: nat)
    requires k < 16
    ensures Bit(Masked(data, andMask, orMask), k) == if Bit(andMask, k) then Bit(data, k) else Bit(orMask, k)
  {
    var kept, set_ := And(data, andMask), And(orMask, Complement(andMask));
    AndBound(data, andMask);
    AndBound(orMask, Complement(andMask));
    ShlSixteen();
    OrBound(kept, set_, 16);
    assert Masked(data, andMask, orMask) == Or(kept, set_);
    OrBit(kept, set_, k);
    AndBit(data, andMask, k);
    AndBit(orMask, Complement(andMask), k);
    ComplementBit(andMask, k);
  }

  // ---------- bytes that were never received ----------

  /** The bytes of the buffer that an accepted write of codes 15 and 16 reads. */
  function BytesRead(t: Tables, p: seq<Byte>): (n: nat)
    requires |p| >= MAX_PDU_LENGTH
    ensures n <= 252
  {
    var addr, nb := Join(p[1], p[2]), Join(p[3], p[4]);
    if p[0] == WRITE_MULTIPLE_COILS && 1 <= nb <= MAX_WRITE_BITS && t.bits.Holds(addr, nb) then 6 + ByteCount(nb)
    else if p[0] == WRITE_MULTIPLE_REGISTERS && 1 <= nb <= MAX_WRITE_REGISTERS && t.registers.Holds(addr, nb) then 6 + 2 * nb
    else 0
  }

  /** The reply and the new tables are decided by the first `n` bytes of the buffer. */
  ghost predicate DecidedBy(t: Tables, p: seq<Byte>, n: nat, id: seq<Byte>)
    requires |p| >= MAX_PDU_LENGTH && n <= |p| && |id| <= 240
  {
    forall q: seq<Byte> :: |q| == |p| && q[..n] == p[..n] ==> Serve(t, q, id) == Serve(t, p, id)
  }

  lemma SameWhenRead(t: Tables, p: seq<Byte>, q: seq<Byte>, n: nat, id: seq<Byte>)
    requires |p| == |q| >= MAX_PDU_LENGTH && n <= |p| && |id| <= 240 && q[..n] == p[..n]
    requires p[0] == WRITE_MULTIPLE_COILS || p[0] == WRITE_MULTIPLE_REGISTERS
    requires n >= 6 && BytesRead(t, p) <= n
    ensures Serve(t, q, id) == Serve(t, p, id)
  {
    hide Join;
    assert forall i :: 0 <= i < n ==> q[i] == q[..n][i] == p[..n][i] == p[i];
    var addr, nb := Join(p[1], p[2]), Join(p[3], p[4]);
    assert p[..5] == q[..5];
    if BytesRead(t, p) > 0 {
      if p[0] == WRITE_MULTIPLE_COILS {
        assert UnpackCells(p[6..], nb) == UnpackCells(q[6..], nb);
      } else {
        assert ReadWords(p[6..], nb) == ReadWords(q[6..], nb);
      }
    }
  }

  /** A frame whose byte count is too small for its quantity makes the server store bytes it never received. */
  lemma StaleBytesDecide(t: Tables, p: seq<Byte>, n: nat, id: seq<Byte>) returns (q: seq<Byte>)
    requires |p| >= MAX_PDU_LENGTH && 6 <= n <= |p| && |id| <= 240 && n < BytesRead(t, p)
    ensures |q| == |p| && q[..n] == p[..n] && Serve(t, q, id) != Serve(t, p, id)
  {
    hide Join;
    var last := BytesRead(t, p) - 1;
    var nb := Join(p[3], p[4]);
    var addr := Join(p[1], p[2]);
    q := p[last := if p[last] % 2 == 1 then p[last] - 1 else p[last] + 1];
    assert p[..5] == q[..5];
    if p[0] == WRITE_MULTIPLE_COILS {
      StaleBits(p, q, nb);
      WritesDiffer(t.bits, addr, UnpackCells(p[6..], nb), UnpackCells(q[6..], nb));
    } else {
      StaleWords(p, q, nb);
      WritesDiffer(t.registers, addr, ReadWords(p[6..], nb), ReadWords(q[6..], nb));
    }
    hide UnpackCells, ReadWords, Bank.Write;
  }

  lemma StaleBits(p: seq<Byte>, q: seq<Byte>, nb: nat)
    requires |p| == |q| && nb > 0 && 6 + ByteCount(nb) <= |p|
    requires q[5 + ByteCount(nb)] % 2 != p[5 + ByteCount(nb)] % 2
    ensures UnpackCells(q[6..], nb) != UnpackCells(p[6..], nb)
  {
    var i := 8 * (ByteCount(nb) - 1);
    assert i < nb && i / 8 == ByteCount(nb) - 1 && i % 8 == 0;
    assert UnpackCells(p[6..], nb)[i] != UnpackCells(q[6..], nb)[i];
  }

  lemma StaleWords(p: seq<Byte>, q: seq<Byte>, nb: nat)
    requires |p| == |q| && nb > 0 && 6 + 2 * nb <= |p|
    requires q[5 + 2 * nb] != p[5 + 2 * nb] && q[4 + 2 * nb] == p[4 + 2 * nb]
    ensures ReadWords(q[6..], nb) != ReadWords(p[6..], nb)
  {
    var last := 5 + 2 * nb;
    LowByteMatters(p[last - 1], p[last], q[last]);
    assert ReadWords(p[6..], nb)[nb - 1] == Join(p[last - 1], p[last]);
    assert ReadWords(q[6..], nb)[nb - 1] == Join(q[last - 1], q[last]);
  }

  lemma WritesDiffer<T>(bank: Bank<T>, addr: int, a: seq<T>, b: seq<T>)
    requires bank.Holds(addr, |a|) && |a| == |b| && a != b
    ensures bank.Write(addr, a) != bank.Write(addr, b)
  {
    var i :| 0 <= i < |a| && a[i] != b[i];
    assert bank.Write(addr, a).cells[addr - bank.start + i] == a[i];
    assert bank.Write(addr, b).cells[addr - bank.start + i] == b[i];
  }

  lemma LowByteMatters(hi: Byte, x: Byte, y: Byte)
    requires x != y
    ensures Join(hi, x) != Join(hi, y)
  {
  }

  /** Codes 15 and 16: the received bytes decide the outcome exactly when they cover the bytes read. */
  lemma DecidedByFrameIff(t: Tables, p: seq<Byte>, n: nat, id: seq<Byte>)
    requires |p| >= MAX_PDU_LENGTH && 6 <= n <= |p| && |id| <= 240
    requires p[0] == WRITE_MULTIPLE_COILS || p[0] == WRITE_MULTIPLE_REGISTERS
    ensures DecidedBy(t, p, n, id) <==> BytesRead(t, p) <= n
  {
    hide Serve, BytesRead;
    if BytesRead(t, p) <= n {
      forall q: seq<Byte> | |q| == |p| && q[..n] == p[..n] ensures Serve(t, q, id) == Serve(t, p, id) {
        SameWhenRead(t, p, q, n, id);
      }
    } else {
      var q := StaleBytesDecide(t, p, n, id);
    }
  }

  /** The byte count of a received frame of code 15 or 16 covers the quantity of a write that is accepted. */
  predicate Covers(t: Tables, pdu: seq<Byte>)
    requires |pdu| >= 6
  {
    var addr, nb := Join(pdu[1], pdu[2]), Join(pdu[3], pdu[4]);
    if pdu[0] == WRITE_MULTIPLE_COILS then 1 <= nb <= MAX_WRITE_BITS && t.bits.Holds(addr, nb) ==> ByteCount(nb) <= pdu[5]
    else 1 <= nb <= MAX_WRITE_REGISTERS && t.registers.Holds(addr, nb) ==> 2 * nb <= pdu[5]
  }

  /** In terms of a frame the receiver delivers: it decides the outcome exactly when its byte count covers its quantity. */
  lemma FrameDecidesIffCovers(t: Tables, pdu: seq<Byte>, p: seq<Byte>, id: seq<Byte>)
    requires |p| >= MAX_PDU_LENGTH && pdu <= p && |id| <= 240
    requires SelfDelimiting(pdu, Indication) && (pdu[0] == WRITE_MULTIPLE_COILS || pdu[0] == WRITE_MULTIPLE_REGISTERS)
    ensures |pdu| == 6 + pdu[5] && (DecidedBy(t, p, |pdu|, id) <==> Covers(t, pdu))
  {
    DecidedByFrameIff(t, p, |pdu|, id);
    assert forall i :: 0 <= i < 6 ==> p[i] == pdu[i];
    hide Join, DecidedBy;
  }

  /** A frame of one data byte that asks for sixteen coils, on tables that have them. */
  lemma SomeFrameDoesNotDecide(x: Byte, t: Tables, p: seq<Byte>, id: seq<Byte>) returns (pdu: seq<Byte>)
    requires t.bits.Holds(0, 16) && |id| <= 240
    requires |p| >= MAX_PDU_LENGTH && p[..7] == [WRITE_MULTIPLE_COILS, 0, 0, 0, 16, 1, x]
    ensures pdu == p[..7] && SelfDelimiting(pdu, Indication) && !DecidedBy(t, p, |pdu|, id)
  {
    pdu := p[..7];
    FrameDecidesIffCovers(t, pdu, p, id);
    hide DecidedBy;
  }

  /** A write-and-read of one register each, the written one just below a table that starts above zero. */
  lemma SomeRequestEscapes(t: Tables, value: Word) returns (r: Request)
    requires 0 < t.registers.start < 0x10000 && |t.registers.cells| >= 1
    ensures r == WriteAndRead(t.registers.start - 1, [value], t.registers.start, 1)
    ensures r.Buildable() && Escapes(t, r)
  {
    r := WriteAndRead(t.registers.start - 1, [value], t.registers.start, 1);
  }
}
