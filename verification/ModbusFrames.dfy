/**
 The messages of libmodbus: protocol data units, the two kinds of frame that carry them, and
 the incremental reading of a frame from a byte stream.
 */
module ModbusFrames {
  import opened Bits
  import RtuCrc

  // ---------- constants of the protocol ----------

  const READ_COILS: Byte := 0x01
  const READ_DISCRETE_INPUTS: Byte := 0x02
  const READ_HOLDING_REGISTERS: Byte := 0x03
  const READ_INPUT_REGISTERS: Byte := 0x04
  const WRITE_SINGLE_COIL: Byte := 0x05
  const WRITE_SINGLE_REGISTER: Byte := 0x06
  const READ_EXCEPTION_STATUS: Byte := 0x07
  const WRITE_MULTIPLE_COILS: Byte := 0x0F
  const WRITE_MULTIPLE_REGISTERS: Byte := 0x10
  const REPORT_SLAVE_ID: Byte := 0x11
  const MASK_WRITE_REGISTER: Byte := 0x16
  const WRITE_AND_READ_REGISTERS: Byte := 0x17

  const MAX_READ_BITS := 2000
  const MAX_WRITE_BITS := 1968
  const MAX_READ_REGISTERS := 125
  const MAX_WRITE_REGISTERS := 123
  const MAX_WR_WRITE_REGISTERS := 121
  const MAX_WR_READ_REGISTERS := 125
  const MAX_PDU_LENGTH := 253

  const ILLEGAL_FUNCTION: Byte := 1
  const ILLEGAL_DATA_ADDRESS: Byte := 2
  const ILLEGAL_DATA_VALUE: Byte := 3
  const EXCEPTION_MAX: Byte := 12

  const BROADCAST := RtuCrc.BROADCAST

  /** What modbus.c knows of a transport: three lengths. */
  datatype Backend = Rtu | Tcp {
    function HeaderLength(): nat {
      if Rtu? then 1 else 7
    }

    function ChecksumLength(): nat {
      if Rtu? then 2 else 0
    }

    function MaxAduLength(): nat {
      if Rtu? then 256 else 260
    }
  }

  datatype MessageType = Indication | Confirmation

  // ---------- words and bits inside a message ----------

  function Words(ws: seq<Word>): (bytes: seq<Byte>)
    ensures |bytes| == 2 * |ws|
  {
    seq(2 * |ws|, i requires 0 <= i < 2 * |ws| => if i % 2 == 0 then Hi(ws[i / 2]) else Lo(ws[i / 2]))
  }

  function ReadWords(bytes: seq<Byte>, n: nat): (ws: seq<Word>)
    requires 2 * n <= |bytes|
    ensures |ws| == n
  {
    seq(n, i requires 0 <= i < n => Join(bytes[2 * i], bytes[2 * i + 1]))
  }

  lemma WordsAt(ws: seq<Word>, i: nat)
    requires i < |ws|
    ensures Words(ws)[2 * i] == Hi(ws[i]) && Words(ws)[2 * i + 1] == Lo(ws[i])
  {
    assert 2 * i / 2 == i && (2 * i + 1) / 2 == i;
  }

  lemma ReadWordsOfWords(ws: seq<Word>, more: seq<Byte>)
    ensures ReadWords(Words(ws) + more, |ws|) == ws
  {
    var bytes := Words(ws) + more;
    forall i | 0 <= i < |ws| ensures ReadWords(bytes, |ws|)[i] == ws[i] {
      hide Words, Hi, Lo, Join;
      WordsAt(ws, i);
      assert bytes[2 * i] == Words(ws)[2 * i] && bytes[2 * i + 1] == Words(ws)[2 * i + 1];
      JoinParts(ws[i]);
    }
  }

  function Chunk<T>(s: seq<T>, k: nat): (c: seq<T>)
    requires k < ByteCount(|s|)
    ensures 1 <= |c| <= 8
  {
    s[8 * k..if 8 * k + 8 <= |s| then 8 * k + 8 else |s|]
  }

  function ChunkByte(bits: seq<bool>, k: nat): Byte
    requires k < ByteCount(|bits|)
  {
    FromBitsIsByte(Chunk(bits, k));
    FromBits(Chunk(bits, k))
  }

  /** Eight bits to a byte, lowest first, the last byte padded with zeros. */
  function PackBits(bits: seq<bool>): (bytes: seq<Byte>)
    ensures |bytes| == ByteCount(|bits|)
  {
    seq(ByteCount(|bits|), k requires 0 <= k < ByteCount(|bits|) => ChunkByte(bits, k))
  }

  /** The first `nb` bits of `bytes` as cells holding 0 or 1. */
  function UnpackCells(bytes: seq<Byte>, nb: nat): (cells: seq<Byte>)
    requires ByteCount(nb) <= |bytes|
    ensures |cells| == nb && AllDigits(cells)
  {
    seq(nb, i requires 0 <= i < nb => if Bit(bytes[i / 8], i % 8) then 1 else 0)
  }

  predicate AllDigits(cells: seq<Byte>) {
    forall i :: 0 <= i < |cells| ==> cells[i] <= 1
  }

  function Flags(cells: seq<Byte>): (bits: seq<bool>)
    ensures |bits| == |cells|
  {
    seq(|cells|, i requires 0 <= i < |cells| => cells[i] != 0)
  }

  function Cells(bits: seq<bool>): (cells: seq<Byte>)
    ensures |cells| == |bits| && AllDigits(cells)
  {
    seq(|bits|, i requires 0 <= i < |bits| => if bits[i] then 1 else 0)
  }

  lemma PackedBit(bits: seq<bool>, i: nat)
    requires i < |bits|
    ensures i / 8 < ByteCount(|bits|) && Bit(PackBits(bits)[i / 8], i % 8) == bits[i]
  {
    FromBitsBit(Chunk(bits, i / 8), i % 8);
  }

  lemma UnpackOfPack(bits: seq<bool>, more: seq<Byte>)
    ensures UnpackCells(PackBits(bits) + more, |bits|) == Cells(bits)
  {
    forall i | 0 <= i < |bits| ensures UnpackCells(PackBits(bits) + more, |bits|)[i] == Cells(bits)[i] {
      PackedBit(bits, i);
    }
  }

  /** What the server makes of table cells: each one OR-ed in at its place, unmasked, cut to a byte. */
  function OrAll(cells: seq<Byte>): nat {
    if cells == [] then 0
    else Or(OrAll(cells[..|cells| - 1]), Shl(cells[|cells| - 1], |cells| - 1))
  }

  function PackCells(cells: seq<Byte>): (bytes: seq<Byte>)
    ensures |bytes| == ByteCount(|cells|)
  {
    seq(ByteCount(|cells|), k requires 0 <= k < ByteCount(|cells|) => OrAll(Chunk(cells, k)) % 0x100)
  }

  lemma {:induction false} OrAllOfDigits(cells: seq<Byte>)
    requires AllDigits(cells)
    ensures OrAll(cells) == FromBits(Flags(cells))
  {
    if cells == [] {
    } else {
      var n := |cells| - 1;
      OrAllOfDigits(cells[..n]);
      assert Flags(cells) == Flags(cells[..n]) + [cells[n] != 0];
      FromBitsSnoc(Flags(cells[..n]), cells[n] != 0);
      ShlZero(n);
    }
  }

  lemma FlagsOfChunk(cells: seq<Byte>, k: nat)
    requires k < ByteCount(|cells|)
    ensures Flags(Chunk(cells, k)) == Chunk(Flags(cells), k)
  {
    var a, b := Flags(Chunk(cells, k)), Chunk(Flags(cells), k);
    forall j | 0 <= j < |a| ensures a[j] == b[j] {
      assert Chunk(cells, k)[j] == cells[8 * k + j] && b[j] == Flags(cells)[8 * k + j];
    }
  }

  lemma ChunkOfDigits(cells: seq<Byte>, k: nat)
    requires AllDigits(cells) && k < ByteCount(|cells|)
    ensures OrAll(Chunk(cells, k)) % 0x100 == ChunkByte(Flags(cells), k)
  {
    hide FromBits, OrAll, Chunk;
    FlagsOfChunk(cells, k);
    assert AllDigits(Chunk(cells, k)) by { ChunkCells(cells, k); }
    OrAllOfDigits(Chunk(cells, k));
    FromBitsIsByte(Chunk(Flags(cells), k));
  }

  lemma ChunkCells(cells: seq<Byte>, k: nat)
    requires k < ByteCount(|cells|)
    ensures forall j :: 0 <= j < |Chunk(cells, k)| ==> 8 * k + j < |cells| && Chunk(cells, k)[j] == cells[8 * k + j]
  {
    var end := if 8 * k + 8 <= |cells| then 8 * k + 8 else |cells|;
    var c := cells[8 * k..end];
    assert Chunk(cells, k) == c;
    forall j | 0 <= j < |c| ensures 8 * k + j < |cells| && c[j] == cells[8 * k + j] {}
  }

  lemma PackCellsOfDigits(cells: seq<Byte>)
    requires AllDigits(cells)
    ensures PackCells(cells) == PackBits(Flags(cells))
  {
    forall k | 0 <= k < ByteCount(|cells|) ensures PackCells(cells)[k] == PackBits(Flags(cells))[k] {
      hide FromBits, OrAll, Chunk, ChunkByte, Flags, AllDigits;
      ChunkOfDigits(cells, k);
    }
  }

  /** Reading cells through a reply gives them back exactly when they all hold 0 or 1. */
  lemma CellsSurviveIffDigits(cells: seq<Byte>, more: seq<Byte>)
    ensures UnpackCells(PackCells(cells) + more, |cells|) == cells <==> AllDigits(cells)
  {
    if AllDigits(cells) {
      PackCellsOfDigits(cells);
      UnpackOfPack(Flags(cells), more);
      assert Cells(Flags(cells)) == cells;
    }
  }

  // ---------- frames ----------

  /** The transaction and protocol identifiers are carried by TCP only. */
  datatype Header = Header(tid: Word, protocol: Word, slave: Byte)

  function Frame(b: Backend, h: Header, pdu: seq<Byte>): (adu: seq<Byte>)
    requires |pdu| <= MAX_PDU_LENGTH
    ensures |adu| == b.HeaderLength() + |pdu| + b.ChecksumLength() <= b.MaxAduLength()
    ensures adu[b.HeaderLength()..b.HeaderLength() + |pdu|] == pdu
    ensures adu[b.HeaderLength() - 1] == h.slave
  {
    match b
    case Rtu => [h.slave] + pdu + RtuCrc.CrcBytes([h.slave] + pdu)
    case Tcp => [Hi(h.tid), Lo(h.tid), Hi(h.protocol), Lo(h.protocol), Hi(|pdu| + 1), Lo(|pdu| + 1), h.slave] + pdu
  }

  function HeaderOf(b: Backend, adu: seq<Byte>): Header
    requires |adu| >= b.HeaderLength()
  {
    match b
    case Rtu => Header(0, 0, adu[0])
    case Tcp => Header(Join(adu[0], adu[1]), Join(adu[2], adu[3]), adu[6])
  }

  // ---------- how much to read next ----------

  function MetaLength(function_: Byte, t: MessageType): nat {
    if t == Indication then
      if function_ <= WRITE_SINGLE_REGISTER then 4
      else if function_ == WRITE_MULTIPLE_COILS || function_ == WRITE_MULTIPLE_REGISTERS then 5
      else if function_ == MASK_WRITE_REGISTER then 6
      else if function_ == WRITE_AND_READ_REGISTERS then 9
      else 0
    else
      if function_ in {WRITE_SINGLE_COIL, WRITE_SINGLE_REGISTER, WRITE_MULTIPLE_COILS, WRITE_MULTIPLE_REGISTERS} then 4
      else if function_ == MASK_WRITE_REGISTER then 6
      else 1
  }

  /** The data bytes announced by the function and meta bytes of a data unit. */
  function DataLength(pdu: seq<Byte>, t: MessageType): nat
    requires |pdu| >= 1 && |pdu| >= 1 + MetaLength(pdu[0], t)
  {
    if t == Indication then
      if pdu[0] == WRITE_MULTIPLE_COILS || pdu[0] == WRITE_MULTIPLE_REGISTERS then pdu[5]
      else if pdu[0] == WRITE_AND_READ_REGISTERS then pdu[9]
      else 0
    else
      if pdu[0] <= READ_INPUT_REGISTERS || pdu[0] == REPORT_SLAVE_ID || pdu[0] == WRITE_AND_READ_REGISTERS then pdu[1]
      else 0
  }

  /** A data unit that announces its own length. */
  predicate SelfDelimiting(pdu: seq<Byte>, t: MessageType) {
    && 1 <= |pdu| <= MAX_PDU_LENGTH
    && |pdu| >= 1 + MetaLength(pdu[0], t)
    && |pdu| == 1 + MetaLength(pdu[0], t) + DataLength(pdu, t)
  }

  datatype Received = Whole(frame: seq<Byte>, rest: seq<Byte>) | TooLong(rest: seq<Byte>) | Starved

  /** The first frame of a byte stream, as _modbus_receive_msg finds its end. */
  function Receive(b: Backend, s: seq<Byte>, t: MessageType): Received {
    var h := b.HeaderLength();
    if |s| < h + 1 || |s| < h + 1 + MetaLength(s[h], t) then Starved
    else
      var meta := h + 1 + MetaLength(s[h], t);
      var total := meta + DataLength(s[h..], t) + b.ChecksumLength();
      if total > b.MaxAduLength() then TooLong(s[meta..])
      else if |s| < total then Starved
      else Whole(s[..total], s[total..])
  }

  /** Whatever follows a frame of a self-delimiting unit, exactly that frame is taken. */
  lemma FrameIsReceived(b: Backend, h: Header, pdu: seq<Byte>, t: MessageType, rest: seq<Byte>)
    requires SelfDelimiting(pdu, t)
    ensures Receive(b, Frame(b, h, pdu) + rest, t) == Whole(Frame(b, h, pdu), rest)
  {
    var s := Frame(b, h, pdu) + rest;
    var k := b.HeaderLength();
    assert s[k] == pdu[0] by { assert s[k] == s[k..k + |pdu|][0]; }
    forall i | 0 <= i < |pdu| ensures s[k..][i] == pdu[i] {
      assert s[k..][i] == Frame(b, h, pdu)[k..k + |pdu|][i];
    }
    assert s[..|Frame(b, h, pdu)|] == Frame(b, h, pdu);
    assert s[|Frame(b, h, pdu)|..] == rest;
  }

  // ---------- requests ----------

  datatype Request =
    | ReadBits(input: bool, addr: Word, nb: nat)
    | ReadRegisters(input: bool, addr: Word, nb: nat)
    | WriteBit(addr: Word, on: bool)
    | WriteRegister(addr: Word, value: Word)
    | WriteBits(addr: Word, bits: seq<bool>)
    | WriteRegisters(addr: Word, values: seq<Word>)
    | MaskWrite(addr: Word, andMask: Word, orMask: Word)
    | WriteAndRead(writeAddr: Word, values: seq<Word>, addr: Word, nb: nat)
  {
    /** The quantities the client calls let through. */
    predicate Buildable() {
      match this
      case ReadBits(_, _, nb) => nb <= MAX_READ_BITS
      case ReadRegisters(_, _, nb) => nb <= MAX_READ_REGISTERS
      case WriteBits(_, bits) => |bits| <= MAX_WRITE_BITS
      case WriteRegisters(_, values) => |values| <= MAX_WRITE_REGISTERS
      case WriteAndRead(_, values, _, nb) => |values| <= MAX_WR_WRITE_REGISTERS && nb <= MAX_WR_READ_REGISTERS
      case _ => true
    }

    function Function(): Byte {
      match this
      case ReadBits(input, _, _) => if input then READ_DISCRETE_INPUTS else READ_COILS
      case ReadRegisters(input, _, _) => if input then READ_INPUT_REGISTERS else READ_HOLDING_REGISTERS
      case WriteBit(_, _) => WRITE_SINGLE_COIL
      case WriteRegister(_, _) => WRITE_SINGLE_REGISTER
      case WriteBits(_, _) => WRITE_MULTIPLE_COILS
      case WriteRegisters(_, _) => WRITE_MULTIPLE_REGISTERS
      case MaskWrite(_, _, _) => MASK_WRITE_REGISTER
      case WriteAndRead(_, _, _, _) => WRITE_AND_READ_REGISTERS
    }

    /** The word after the address: a quantity, or the value of a single write. */
    function Count(): Word
      requires Buildable()
    {
      match this
      case ReadBits(_, _, nb) => nb
      case ReadRegisters(_, _, nb) => nb
      case WriteBit(_, on) => if on then 0xFF00 else 0
      case WriteRegister(_, value) => value
      case WriteBits(_, bits) => |bits|
      case WriteRegisters(_, values) => |values|
      case MaskWrite(_, andMask, _) => andMask
      case WriteAndRead(_, _, _, nb) => nb
    }

    /** What each call appends to function, address and count. */
    function Tail(): seq<Byte>
      requires Buildable()
    {
      match this
      case WriteBits(_, bits) => [ByteCount(|bits|)] + PackBits(bits)
      case WriteRegisters(_, values) => [2 * |values|] + Words(values)
      case MaskWrite(_, _, orMask) => [Hi(orMask), Lo(orMask)]
      case WriteAndRead(writeAddr, values, _, _) =>
        [Hi(writeAddr), Lo(writeAddr), Hi(|values|), Lo(|values|), 2 * |values|] + Words(values)
      case _ => []
    }

    /** The function and two words (build_request_basis), then the rest of the call. */
    function Encode(): (pdu: seq<Byte>)
      requires Buildable()
      ensures 5 <= |pdu| <= MAX_PDU_LENGTH && pdu[0] == Function()
    {
      Basis(Function(), addr, Count()) + Tail()
    }
  }

  function Basis(function_: Byte, addr: Word, nb: Word): seq<Byte> {
    [function_, Hi(addr), Lo(addr), Hi(nb), Lo(nb)]
  }

  lemma RequestIsSelfDelimiting(r: Request)
    requires r.Buildable()
    ensures SelfDelimiting(r.Encode(), Indication)
  {
    var pdu := r.Encode();
    match r
    case WriteBits(_, bits) => assert pdu[5] == ByteCount(|bits|);
    case WriteRegisters(_, values) => assert pdu[5] == 2 * |values|;
    case WriteAndRead(_, values, _, _) => assert pdu[9] == 2 * |values|;
    case _ =>
  }

  /** compute_response_length_from_request; Undefined stands for MSG_LENGTH_UNDEFINED. */
  datatype Expected = Exactly(length: nat) | Undefined

  function ResponseLength(b: Backend, req: seq<Byte>): Expected
    requires |req| >= b.HeaderLength() + 5
  {
    var k := b.HeaderLength();
    var nb := Join(req[k + 3], req[k + 4]);
    var function_ := req[k];
    if function_ == REPORT_SLAVE_ID then Undefined
    else
      var length :=
        if function_ == READ_COILS || function_ == READ_DISCRETE_INPUTS then 2 + ByteCount(nb)
        else if function_ in {WRITE_AND_READ_REGISTERS, READ_HOLDING_REGISTERS, READ_INPUT_REGISTERS} then 2 + 2 * nb
        else if function_ == READ_EXCEPTION_STATUS then 3
        else if function_ == MASK_WRITE_REGISTER then 7
        else 5;
      Exactly(k + length + b.ChecksumLength())
  }
}
