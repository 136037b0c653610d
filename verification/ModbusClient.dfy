/**
 The client side: what check_confirmation accepts, what each call hands to its caller, and how
 long a reply to a request is.
 */
module ModbusClient {
  import opened Bits
  import opened ModbusFrames
  import opened ModbusServer
  import RtuCrc

  datatype Error = ExceptionCode(code: Byte) | BadExceptionCode | BadData | BadSlave | BadCrc | ConnectionLost

  datatype Checked = Count(n: nat) | Failed(error: Error)

  function PreCheck(b: Backend, req: seq<Byte>, rsp: seq<Byte>): (error: Checked)
    requires |req| >= b.HeaderLength() && |rsp| >= b.HeaderLength()
  {
    match b
    case Rtu => if req[0] != rsp[0] && req[0] != BROADCAST then Failed(BadSlave) else Count(0)
    case Tcp =>
      if req[0] != rsp[0] || req[1] != rsp[1] then Failed(BadData)
      else if rsp[2] != 0 && rsp[3] != 0 then Failed(BadData)
      else Count(0)
  }

  /** The numbers of values check_confirmation compares, request first. */
  function Quantities(req: seq<Byte>, rsp: seq<Byte>): (nat, nat)
    requires |req| >= 5 && |rsp| >= 5
  {
    var nb := Join(req[3], req[4]);
    var function_ := rsp[0];
    if function_ == READ_COILS || function_ == READ_DISCRETE_INPUTS then (ByteCount(nb), rsp[1])
    else if function_ in {WRITE_AND_READ_REGISTERS, READ_HOLDING_REGISTERS, READ_INPUT_REGISTERS} then (nb, rsp[1] / 2)
    else if function_ == WRITE_MULTIPLE_COILS || function_ == WRITE_MULTIPLE_REGISTERS then (nb, Join(rsp[3], rsp[4]))
    else if function_ == REPORT_SLAVE_ID then (rsp[1], rsp[1])
    else (1, 1)
  }

  /** check_confirmation on the two buffers, of which `rspLength` bytes were received. */
  function CheckConfirmation(b: Backend, req: seq<Byte>, rsp: seq<Byte>, rspLength: nat): Checked
    requires |req| >= b.HeaderLength() + 5 && |rsp| >= b.HeaderLength() + 5
  {
    var k := b.HeaderLength();
    var function_ := rsp[k];
    var expected := ResponseLength(b, req);
    if PreCheck(b, req, rsp).Failed? then PreCheck(b, req, rsp)
    else if function_ >= 0x80 then
      if rspLength == k + 2 + b.ChecksumLength() && req[k] == function_ - 0x80 && rsp[k + 1] < EXCEPTION_MAX
      then Failed(ExceptionCode(rsp[k + 1]))
      else Failed(BadExceptionCode)
    else if expected != Exactly(rspLength) && expected != Undefined then Failed(BadData)
    else if function_ != req[k] then Failed(BadData)
    else
      var (asked, got) := Quantities(req[k..], rsp[k..]);
      if asked == got then Count(got) else Failed(BadData)
  }

  /** What a call leaves with its caller. */
  datatype CallResult = BitsRead(cells: seq<Byte>) | RegistersRead(values: seq<Word>) | Acknowledged(n: nat) | Error(error: Error)

  /** The end of each call: check, then unpack the reply into the destination. */
  function Finish(b: Backend, r: Request, req: seq<Byte>, rsp: seq<Byte>, rspLength: nat): CallResult
    requires r.Buildable()
    requires |req| >= b.HeaderLength() + 5 && req[b.HeaderLength()..b.HeaderLength() + 5] == r.Encode()[..5]
    requires |rsp| == 260
  {
    var k := b.HeaderLength();
    match CheckConfirmation(b, req, rsp, rspLength)
    case Failed(e) => Error(e)
    case Count(n) =>
      match r
      case ReadBits(_, _, nb) =>
        assert n == ByteCount(nb) by { CountOfReadBits(b, r, req, rsp, rspLength); }
        BitsRead(UnpackCells(rsp[k + 2..], nb))
      case ReadRegisters(_, _, nb) =>
        assert n == nb by { CountOfReadRegisters(b, r, req, rsp, rspLength); }
        RegistersRead(ReadWords(rsp[k + 2..], n))
      case WriteAndRead(_, _, _, nb) =>
        assert n == nb by { CountOfReadRegisters(b, r, req, rsp, rspLength); }
        RegistersRead(ReadWords(rsp[k + 2..], n))
      case _ => Acknowledged(n)
  }

  lemma CountField(b: Backend, r: Request, req: seq<Byte>)
    requires r.Buildable()
    requires |req| >= b.HeaderLength() + 5 && req[b.HeaderLength()..b.HeaderLength() + 5] == r.Encode()[..5]
    ensures req[b.HeaderLength()] == r.Function() && Join(req[b.HeaderLength() + 3], req[b.HeaderLength() + 4]) == r.Count()
  {
    hide Join, Hi, Lo, r.Function, r.Count, r.Tail;
    var k := b.HeaderLength();
    var e := Basis(r.Function(), r.addr, r.Count());
    assert r.Encode()[..5] == e;
    assert req[k] == req[k..k + 5][0] && req[k + 3] == req[k..k + 5][3] && req[k + 4] == req[k..k + 5][4];
    JoinParts(r.Count());
  }

  lemma CountOfReadBits(b: Backend, r: Request, req: seq<Byte>, rsp: seq<Byte>, rspLength: nat)
    requires r.Buildable() && r.ReadBits? && |rsp| == 260
    requires |req| >= b.HeaderLength() + 5 && req[b.HeaderLength()..b.HeaderLength() + 5] == r.Encode()[..5]
    requires CheckConfirmation(b, req, rsp, rspLength).Count?
    ensures CheckConfirmation(b, req, rsp, rspLength).n == ByteCount(r.nb)
  {
    hide Join, r.Encode;
    CountField(b, r, req);
  }

  lemma CountOfReadRegisters(b: Backend, r: Request, req: seq<Byte>, rsp: seq<Byte>, rspLength: nat)
    requires r.Buildable() && (r.ReadRegisters? || r.WriteAndRead?) && |rsp| == 260
    requires |req| >= b.HeaderLength() + 5 && req[b.HeaderLength()..b.HeaderLength() + 5] == r.Encode()[..5]
    requires CheckConfirmation(b, req, rsp, rspLength).Count?
    ensures CheckConfirmation(b, req, rsp, rspLength).n == r.nb
  {
    hide Join, r.Encode;
    CountField(b, r, req);
  }

  // ---------- replies ----------

  /** A result that `Apply` can give for this request. */
  predicate Fits(r: Request, result: Result) {
    match result
    case Refused(code) => code < EXCEPTION_MAX
    case BitValues(cells) => r.ReadBits? && |cells| == r.nb >= 1
    case RegisterValues(values) => (r.ReadRegisters? || r.WriteAndRead?) && |values| == r.nb >= 1
    case Written => !r.ReadBits? && !r.ReadRegisters? && !r.WriteAndRead?
  }

  lemma ApplyFits(t: Tables, r: Request)
    ensures Fits(r, Apply(t, r).1)
  {
  }

  /** The length a reply to this request has, exception or not. */
  lemma ReplyLength(b: Backend, r: Request, result: Result, req: seq<Byte>)
    requires r.Buildable() && Fits(r, result)
    requires |req| >= b.HeaderLength() + 5 && req[b.HeaderLength()..b.HeaderLength() + 5] == r.Encode()[..5]
    ensures 2 <= |ReplyPdu(r, result)| <= MAX_PDU_LENGTH
    ensures var length := b.HeaderLength() + |ReplyPdu(r, result)| + b.ChecksumLength();
            if result.Refused? then length == b.HeaderLength() + 2 + b.ChecksumLength()
            else ResponseLength(b, req) == Exactly(length)
  {
    hide Join, PackCells, Words;
    CountField(b, r, req);
  }

  lemma ReplyIsSelfDelimiting(r: Request, result: Result)
    requires r.Buildable() && Fits(r, result)
    ensures SelfDelimiting(ReplyPdu(r, result), Confirmation)
  {
    hide PackCells, Words;
  }

  /**
   So does every other answer to a function code that is not itself an exception's, the report of
   the server's identification and the refusals included.
   */
  lemma AnswerIsSelfDelimiting(t: Tables, p: seq<Byte>, id: seq<Byte>)
    requires |p| >= MAX_PDU_LENGTH && |id| <= 240 && p[0] < 0x80
    ensures var o := Serve(t, p, id).1; o.Answer? ==> SelfDelimiting(o.pdu, Confirmation)
  {
    hide ServeReadBits, ServeReadRegisters, ServeWriteBit, ServeWriteRegister, ServeWriteBits, ServeWriteRegisters;
    hide ServeMaskWrite, ServeWriteAndRead, SelfDelimiting, Exception;
    ReadAnswers(t.bits, t.registers, p);
    ReadAnswers(t.inputBits, t.inputRegisters, p);
    WriteAnswers(t.bits, t.registers, p);
    OtherAnswers(t.registers, p, id);
  }

  predicate Delimits(o: Outcome) {
    o.Answer? ==> SelfDelimiting(o.pdu, Confirmation)
  }

  lemma ReadAnswers(bits: Bank<Byte>, registers: Bank<Word>, p: seq<Byte>)
    requires |p| >= MAX_PDU_LENGTH
    ensures p[0] == READ_COILS || p[0] == READ_DISCRETE_INPUTS ==> Delimits(ServeReadBits(bits, p))
    ensures p[0] == READ_HOLDING_REGISTERS || p[0] == READ_INPUT_REGISTERS ==> Delimits(ServeReadRegisters(registers, p))
  {
    hide PackCells, Words, Join;
  }

  lemma WriteAnswers(bits: Bank<Byte>, registers: Bank<Word>, p: seq<Byte>)
    requires |p| >= MAX_PDU_LENGTH
    ensures p[0] == WRITE_SINGLE_COIL ==> Delimits(ServeWriteBit(bits, p).1)
    ensures p[0] == WRITE_SINGLE_REGISTER ==> Delimits(ServeWriteRegister(registers, p).1)
    ensures p[0] == WRITE_MULTIPLE_COILS ==> Delimits(ServeWriteBits(bits, p).1)
    ensures p[0] == WRITE_MULTIPLE_REGISTERS ==> Delimits(ServeWriteRegisters(registers, p).1)
  {
    hide Join, UnpackCells, ReadWords;
  }

  lemma OtherAnswers(registers: Bank<Word>, p: seq<Byte>, id: seq<Byte>)
    requires |p| >= MAX_PDU_LENGTH && |id| <= 240
    ensures p[0] == MASK_WRITE_REGISTER ==> Delimits(ServeMaskWrite(registers, p).1)
    ensures p[0] == WRITE_AND_READ_REGISTERS ==> Delimits(ServeWriteAndRead(registers, p).1)
    ensures p[0] == REPORT_SLAVE_ID ==> SelfDelimiting([p[0], 2 + |id|, SLAVE_ID, 0xFF] + id, Confirmation)
    ensures p[0] < 0x80 ==> Delimits(Exception(p[0], ILLEGAL_FUNCTION))
  {
    hide Join, ReadWords, Words, Masked;
  }
}
