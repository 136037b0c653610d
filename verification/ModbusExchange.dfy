/**
 A client and a server on the two ends of a lossless byte stream. One exchange is: encode,
 receive, check, serve, encode, receive, check, decode. `ExchangeIsApply` and
 `RemoteRunIsDirectRun` say that all of it amounts to the direct operation on the tables.
 */
module ModbusExchange {
  import opened Bits
  import opened ModbusFrames
  import opened ModbusServer
  import opened ModbusClient
  import RtuCrc

  function Integrity(b: Backend, slave: int, frame: seq<Byte>): RtuCrc.Integrity
    requires |frame| >= 2
  {
    match b
    case Rtu => RtuCrc.CheckIntegrity(slave, frame)
    case Tcp => RtuCrc.Accepted(|frame|)
  }

  /** A message buffer after a frame was read into it; the rest still holds older bytes. */
  function Fill(frame: seq<Byte>, stale: seq<Byte>): (buffer: seq<Byte>)
    requires |frame| <= 260 == |stale|
    ensures |buffer| == 260 && frame <= buffer
  {
    frame + stale[|frame|..]
  }

  datatype Turn = Turned(tables: Tables, sent: seq<Byte>, rest: seq<Byte>) | Waiting | OutOfTable

  lemma AnswerBound(t: Tables, p: seq<Byte>, id: seq<Byte>)
    requires |p| >= MAX_PDU_LENGTH && |id| <= 240
    ensures Serve(t, p, id).1.Answer? ==> |Serve(t, p, id).1.pdu| <= MAX_PDU_LENGTH
  {
    hide Join, PackCells, Words, UnpackCells, ReadWords, Masked;
  }

  /** One modbus_receive and, if it delivered a request, one modbus_reply. */
  function ServerTurn(b: Backend, slave: int, t: Tables, id: seq<Byte>, stale: seq<Byte>, incoming: seq<Byte>): Turn
    requires |id| <= 240 && |stale| == 260
  {
    match Receive(b, incoming, Indication)
    case Starved => Waiting
    case TooLong(rest) => Turned(t, [], rest)
    case Whole(frame, rest) =>
      if !Integrity(b, slave, frame).Accepted? then Turned(t, [], rest) else ReplyTurn(b, t, id, stale, frame, rest)
  }

  function ReplyTurn(b: Backend, t: Tables, id: seq<Byte>, stale: seq<Byte>, frame: seq<Byte>, rest: seq<Byte>): Turn
    requires |id| <= 240 && |stale| == 260
    requires b.HeaderLength() + 1 + b.ChecksumLength() <= |frame| <= b.MaxAduLength()
  {
    var k := b.HeaderLength();
    var p := Fill(frame, stale)[k..];
    var header := HeaderOf(b, frame);
    AnswerBound(t, p, id);
    var (t', o) := Serve(t, p, id);
    if o.OutOfBounds? then OutOfTable
    else if header.slave == BROADCAST || o.Unimplemented? then Turned(t', [], rest)
    else if o.Echo? then Turned(t', Frame(b, header, frame[k..|frame| - b.ChecksumLength()]), rest)
    else Turned(t', Frame(b, header.(protocol := 0), o.pdu), rest)
  }

  /** The part of a client call after the request was sent. */
  function ClientTurn(b: Backend, slave: int, r: Request, req: seq<Byte>, stale: seq<Byte>, incoming: seq<Byte>): CallResult
    requires r.Buildable() && |stale| == 260
    requires |req| >= b.HeaderLength() + 5 && req[b.HeaderLength()..b.HeaderLength() + 5] == r.Encode()[..5]
  {
    match Receive(b, incoming, Confirmation)
    case Starved => Error(ConnectionLost)
    case TooLong(_) => Error(BadData)
    case Whole(frame, _) =>
      match Integrity(b, slave, frame)
      case BadCrc => Error(ModbusClient.BadCrc)
      case Ignored => Finish(b, r, req, Fill(frame, stale), 0)
      case Accepted(n) => Finish(b, r, req, Fill(frame, stale), n)
  }

  function RequestFrame(b: Backend, tid: Word, slave: Byte, r: Request): (adu: seq<Byte>)
    requires r.Buildable()
    ensures |adu| >= b.HeaderLength() + 5 && adu[b.HeaderLength()..b.HeaderLength() + 5] == r.Encode()[..5]
  {
    var adu := Frame(b, Header(tid, 0, slave), r.Encode());
    assert adu[b.HeaderLength()..b.HeaderLength() + 5] == adu[b.HeaderLength()..b.HeaderLength() + |r.Encode()|][..5];
    adu
  }

  function ReplyFrame(b: Backend, tid: Word, slave: Byte, r: Request, result: Result): (adu: seq<Byte>)
    requires r.Buildable() && Fits(r, result)
  {
    ReplyLength(b, r, result, RequestFrame(b, tid, slave, r));
    Frame(b, Header(tid, 0, slave), ReplyPdu(r, result))
  }

  // ---------- each leg of the exchange ----------

  /** The result as the caller of the client library sees it. */
  function Outward(r: Request, result: Result): CallResult {
    match result
    case Refused(code) => Error(ExceptionCode(code))
    case BitValues(cells) => BitsRead(cells)
    case RegisterValues(values) => RegistersRead(values)
    case Written =>
      Acknowledged(if r.WriteBits? then |r.bits| else if r.WriteRegisters? then |r.values| else 1)
  }

  lemma FrameIntact(b: Backend, slave: int, h: Header, pdu: seq<Byte>)
    requires 1 <= |pdu| <= MAX_PDU_LENGTH && (b.Rtu? ==> h.slave == slave || h.slave == BROADCAST)
    ensures Integrity(b, slave, Frame(b, h, pdu)) == RtuCrc.Accepted(|Frame(b, h, pdu)|)
  {
    if b.Rtu? {
      hide RtuCrc.CrcBytes, RtuCrc.CheckIntegrity;
      RtuCrc.FreshFrameAccepted(slave, [h.slave] + pdu);
    }
  }

  function ReplyFrameTo(b: Backend, tid: Word, slave: Byte, t: Tables, r: Request): (adu: seq<Byte>)
    requires r.Buildable()
  {
    ApplyFits(t, r);
    ReplyFrame(b, tid, slave, r, Apply(t, r).1)
  }

  /** Leg one: the server takes the request off the stream, applies it, and sends the reply it calls for. */
  lemma RequestIsServed(b: Backend, tid: Word, slave: Byte, t: Tables, id: seq<Byte>, stale: seq<Byte>, r: Request, rest: seq<Byte>)
    requires r.Buildable() && |id| <= 240 && |stale| == 260
    ensures ServerTurn(b, slave, t, id, stale, RequestFrame(b, tid, slave, r) + rest) ==
      if Escapes(t, r) then OutOfTable
      else Turned(Apply(t, r).0, if slave == BROADCAST then [] else ReplyFrameTo(b, tid, slave, t, r), rest)
  {
    hide r.Encode, Apply, Serve, ReplyPdu, ReplyTurn, RtuCrc.CrcBytes, Receive, Escapes, ReplyFrameTo;
    RequestIsSelfDelimiting(r);
    FrameIsReceived(b, Header(tid, 0, slave), r.Encode(), Indication, rest);
    FrameIntact(b, slave, Header(tid, 0, slave), r.Encode());
    RequestTurn(b, tid, slave, t, id, stale, r, rest);
  }

  lemma RequestTurn(b: Backend, tid: Word, slave: Byte, t: Tables, id: seq<Byte>, stale: seq<Byte>, r: Request, rest: seq<Byte>)
    requires r.Buildable() && |id| <= 240 && |stale| == 260
    ensures ReplyTurn(b, t, id, stale, RequestFrame(b, tid, slave, r), rest) ==
      if Escapes(t, r) then OutOfTable
      else Turned(Apply(t, r).0, if slave == BROADCAST then [] else ReplyFrameTo(b, tid, slave, t, r), rest)
  {
    hide r.Encode, Apply, Serve, ReplyPdu, RtuCrc.CrcBytes, Escapes, Fits, HeaderOf;
    var h := Header(tid, 0, slave);
    var k := b.HeaderLength();
    var frame := RequestFrame(b, tid, slave, r);
    var p := Fill(frame, stale)[k..];
    assert r.Encode() <= p by { assert p[..|r.Encode()|] == frame[k..k + |r.Encode()|]; }
    ServeIsApply(t, r, p, id);
    assert frame[k..|frame| - b.ChecksumLength()] == r.Encode();
    HeaderSurvives(b, h, r.Encode());
  }

  lemma HeaderSurvives(b: Backend, h: Header, pdu: seq<Byte>)
    requires |pdu| <= MAX_PDU_LENGTH
    ensures HeaderOf(b, Frame(b, h, pdu)) == if b.Tcp? then h else Header(0, 0, h.slave)
  {
    if b.Tcp? {
      hide Join, Hi, Lo;
      JoinParts(h.tid);
      JoinParts(h.protocol);
    }
  }

  /** Leg two: the client takes the reply off the stream and returns the result it carries. */
  lemma ReplyIsUnderstood(b: Backend, tid: Word, slave: Byte, r: Request, result: Result, stale: seq<Byte>, rest: seq<Byte>)
    requires r.Buildable() && |stale| == 260 && Fits(r, result)
    requires result.BitValues? ==> AllDigits(result.cells)
    ensures ClientTurn(b, slave, r, RequestFrame(b, tid, slave, r), stale, ReplyFrame(b, tid, slave, r, result) + rest)
      == Outward(r, result)
  {
    hide r.Encode, ReplyPdu, RtuCrc.CrcBytes, Receive, Finish;
    var h := Header(tid, 0, slave);
    var pdu := ReplyPdu(r, result);
    ReplyLength(b, r, result, RequestFrame(b, tid, slave, r));
    ReplyIsSelfDelimiting(r, result);
    FrameIsReceived(b, h, pdu, Confirmation, rest);
    FrameIntact(b, slave, h, pdu);
    ReplyIsFinished(b, tid, slave, r, result, RequestFrame(b, tid, slave, r), Fill(Frame(b, h, pdu), stale));
  }

  lemma ReplyIsFinished(b: Backend, tid: Word, slave: Byte, r: Request, result: Result, req: seq<Byte>, rsp: seq<Byte>)
    requires r.Buildable() && Fits(r, result) && RequestFrame(b, tid, slave, r) <= req
    requires result.BitValues? ==> AllDigits(result.cells)
    requires |rsp| == 260 && ReplyFrame(b, tid, slave, r, result) <= rsp
    ensures req[b.HeaderLength()..b.HeaderLength() + 5] == r.Encode()[..5]
    ensures Finish(b, r, req, rsp, |ReplyFrame(b, tid, slave, r, result)|) == Outward(r, result)
  {
    hide r.Encode, ReplyPdu, RtuCrc.CrcBytes, Finish;
    var k := b.HeaderLength();
    var pdu := ReplyPdu(r, result);
    assert req[k..k + 5] == RequestFrame(b, tid, slave, r)[k..k + 5];
    ReplyLength(b, r, result, req);
    var frame := ReplyFrame(b, tid, slave, r, result);
    var more := rsp[k + |pdu|..];
    assert rsp[k..] == pdu + more by {
      assert frame[k..k + |pdu|] == pdu;
      assert forall i :: k <= i < k + |pdu| ==> rsp[i] == frame[i];
    }
    assert PreCheck(b, req, rsp) == Count(0);
    ReplyIsDecoded(b, r, result, req, rsp, more);
  }

  lemma ReplyIsDecoded(b: Backend, r: Request, result: Result, req: seq<Byte>, rsp: seq<Byte>, more: seq<Byte>)
    requires Delivered(b, r, result, req, rsp, more)
    ensures Finish(b, r, req, rsp, b.HeaderLength() + |ReplyPdu(r, result)| + b.ChecksumLength()) == Outward(r, result)
  {
    hide Delivered, Finish, ReplyPdu;
    match result
    case Refused(_) => RefusalIsDecoded(b, r, result, req, rsp, more);
    case BitValues(_) => BitsAreDecoded(b, r, result, req, rsp, more);
    case RegisterValues(_) => RegistersAreDecoded(b, r, result, req, rsp, more);
    case Written => WriteIsAcknowledged(b, r, result, req, rsp, more);
  }

  /** The reply to `r` stands in the client's buffer and has passed the first check. */
  predicate Delivered(b: Backend, r: Request, result: Result, req: seq<Byte>, rsp: seq<Byte>, more: seq<Byte>) {
    && r.Buildable() && Fits(r, result) && (result.BitValues? ==> AllDigits(result.cells))
    && |req| >= b.HeaderLength() + 5 && req[b.HeaderLength()..b.HeaderLength() + 5] == r.Encode()[..5]
    && |rsp| == 260 && rsp[b.HeaderLength()..] == ReplyPdu(r, result) + more
    && PreCheck(b, req, rsp) == Count(0)
  }

  lemma RefusalIsDecoded(b: Backend, r: Request, result: Result, req: seq<Byte>, rsp: seq<Byte>, more: seq<Byte>)
    requires Delivered(b, r, result, req, rsp, more) && result.Refused?
    ensures Finish(b, r, req, rsp, b.HeaderLength() + |ReplyPdu(r, result)| + b.ChecksumLength()) == Outward(r, result)
  {
    hide r.Encode, Join, PreCheck, ResponseLength, UnpackCells, ReadWords;
    var k := b.HeaderLength();
    CountField(b, r, req);
    assert rsp[k] == rsp[k..][0] && rsp[k + 1] == rsp[k..][1];
  }

  lemma BitsAreDecoded(b: Backend, r: Request, result: Result, req: seq<Byte>, rsp: seq<Byte>, more: seq<Byte>)
    requires Delivered(b, r, result, req, rsp, more) && result.BitValues?
    ensures Finish(b, r, req, rsp, b.HeaderLength() + |ReplyPdu(r, result)| + b.ChecksumLength()) == Outward(r, result)
  {
    hide r.Encode, Join, PreCheck, ResponseLength, UnpackCells, PackCells, AllDigits;
    var k := b.HeaderLength();
    ReplyLength(b, r, result, req);
    CountField(b, r, req);
    assert rsp[k] == rsp[k..][0] && rsp[k + 1] == rsp[k..][1];
    assert rsp[k + 2..] == rsp[k..][2..] == PackCells(result.cells) + more;
    CellsSurviveIffDigits(result.cells, more);
  }

  lemma RegistersAreDecoded(b: Backend, r: Request, result: Result, req: seq<Byte>, rsp: seq<Byte>, more: seq<Byte>)
    requires Delivered(b, r, result, req, rsp, more) && result.RegisterValues?
    ensures Finish(b, r, req, rsp, b.HeaderLength() + |ReplyPdu(r, result)| + b.ChecksumLength()) == Outward(r, result)
  {
    hide r.Encode, Join, PreCheck, ResponseLength, Words, ReadWords;
    var k := b.HeaderLength();
    ReplyLength(b, r, result, req);
    CountField(b, r, req);
    assert rsp[k] == rsp[k..][0] && rsp[k + 1] == rsp[k..][1];
    assert rsp[k + 2..] == rsp[k..][2..] == Words(result.values) + more;
    ReadWordsOfWords(result.values, more);
  }

  lemma WriteIsAcknowledged(b: Backend, r: Request, result: Result, req: seq<Byte>, rsp: seq<Byte>, more: seq<Byte>)
    requires Delivered(b, r, result, req, rsp, more) && result.Written?
    ensures Finish(b, r, req, rsp, b.HeaderLength() + |ReplyPdu(r, result)| + b.ChecksumLength()) == Outward(r, result)
  {
    hide r.Encode, Join, PreCheck, ResponseLength;
    var k := b.HeaderLength();
    ReplyLength(b, r, result, req);
    CountField(b, r, req);
    assert rsp[k..][..5] == ReplyPdu(r, result)[..5] == r.Encode()[..5];
    assert forall i :: 0 <= i < 5 ==> rsp[k + i] == rsp[k..][..5][i] == req[k..k + 5][i] == req[k + i];
    assert rsp[k + 0] == req[k + 0];
    assert rsp[k + 3] == req[k + 3] && rsp[k + 4] == req[k + 4];
  }

  // ---------- whole exchanges and whole runs ----------

  /** One call as both ends live it: the tables it leaves and what the caller gets. Broken: a cell outside the table. */
  datatype Exchanged = Done(tables: Tables, result: CallResult) | Broken

  function Exchange(b: Backend, slave: Byte, tid: Word, t: Tables, id: seq<Byte>, stale: seq<Byte>, r: Request): Exchanged
    requires r.Buildable() && |id| <= 240 && |stale| == 260
  {
    var req := RequestFrame(b, tid, slave, r);
    match ServerTurn(b, slave, t, id, stale, req)
    case OutOfTable => Broken
    case Waiting => Done(t, Error(ConnectionLost))
    case Turned(t', sent, _) => Done(t', ClientTurn(b, slave, r, req, stale, sent))
  }

  /** A call over the line is the direct operation, for both transports; a broadcast is the operation without an answer. */
  lemma ExchangeIsApply(b: Backend, slave: Byte, tid: Word, t: Tables, id: seq<Byte>, stale: seq<Byte>, r: Request)
    requires r.Buildable() && |id| <= 240 && |stale| == 260 && t.Valid()
    ensures Exchange(b, slave, tid, t, id, stale, r) ==
      if Escapes(t, r) then Broken
      else Done(Apply(t, r).0, if slave == BROADCAST then Error(ConnectionLost) else Outward(r, Apply(t, r).1))
    ensures Apply(t, r).0.Valid()
  {
    hide r.Encode, ReplyPdu, RtuCrc.CrcBytes, ServerTurn, ClientTurn, Escapes;
    var req := RequestFrame(b, tid, slave, r);
    var (applied, result) := Apply(t, r);
    RequestIsServed(b, tid, slave, t, id, stale, r, []);
    assert req + [] == req;
    ApplyFits(t, r);
    ApplyKeepsValid(t, r);
    if slave == BROADCAST {
      NothingToRead(b, slave, r, req, stale);
    } else {
      var answer := ReplyFrame(b, tid, slave, r, result);
      ReplyIsUnderstood(b, tid, slave, r, result, stale, []);
      assert answer + [] == answer;
    }
  }

  lemma NothingToRead(b: Backend, slave: int, r: Request, req: seq<Byte>, stale: seq<Byte>)
    requires r.Buildable() && |stale| == 260
    requires |req| >= b.HeaderLength() + 5 && req[b.HeaderLength()..b.HeaderLength() + 5] == r.Encode()[..5]
    ensures ClientTurn(b, slave, r, req, stale, []) == Error(ConnectionLost)
  {
  }

  lemma ApplyKeepsValid(t: Tables, r: Request)
    requires t.Valid()
    ensures Apply(t, r).0.Valid() && (Apply(t, r).1.BitValues? ==> AllDigits(Apply(t, r).1.cells))
  {
    hide Masked;
  }

  /** A call, and the older bytes that happen to be in the buffers while it runs. */
  datatype Call = Call(request: Request, stale: seq<Byte>) {
    predicate Valid() {
      request.Buildable() && |stale| == 260
    }
  }

  predicate AllValid(calls: seq<Call>) {
    forall i :: 0 <= i < |calls| ==> calls[i].Valid()
  }

  datatype Run = Completed(tables: Tables, results: seq<CallResult>) | Aborted

  function NextTid(tid: Word): Word {
    if tid < 0xFFFF then tid + 1 else 0
  }

  /** Call after call over the line, each with the next transaction number. */
  function RemoteRun(b: Backend, slave: Byte, tid: Word, t: Tables, id: seq<Byte>, calls: seq<Call>): Run
    requires AllValid(calls) && |id| <= 240
    decreases |calls|
  {
    if calls == [] then Completed(t, [])
    else
      match Exchange(b, slave, NextTid(tid), t, id, calls[0].stale, calls[0].request)
      case Broken => Aborted
      case Done(t', result) =>
        match RemoteRun(b, slave, NextTid(tid), t', id, calls[1..])
        case Aborted => Aborted
        case Completed(final, results) => Completed(final, [result] + results)
  }

  /** The same calls as direct operations, one after the other. */
  function DirectRun(t: Tables, calls: seq<Call>): Run
    decreases |calls|
  {
    if calls == [] then Completed(t, [])
    else
      var (t', result) := Apply(t, calls[0].request);
      match DirectRun(t', calls[1..])
      case Aborted => Aborted
      case Completed(final, results) => Completed(final, [Outward(calls[0].request, result)] + results)
  }

  predicate NoneEscapes(t: Tables, calls: seq<Call>)
    decreases |calls|
  {
    calls == [] || (!Escapes(t, calls[0].request) && NoneEscapes(Apply(t, calls[0].request).0, calls[1..]))
  }

  /**
   Every run of client calls returns the values and leaves the tables of the direct operations in
   order, over RTU and over TCP, unless one of its write-and-read calls starts below the table.
   */
  lemma {:induction false} RemoteRunIsDirectRun(b: Backend, slave: Byte, tid: Word, t: Tables, id: seq<Byte>, calls: seq<Call>)
    requires AllValid(calls) && |id| <= 240 && t.Valid() && slave != BROADCAST
    ensures RemoteRun(b, slave, tid, t, id, calls) == if NoneEscapes(t, calls) then DirectRun(t, calls) else Aborted
    ensures DirectRun(t, calls).Completed?
    decreases |calls|
  {
    if calls != [] {
      hide Exchange, Apply, Outward, Escapes, t.Valid;
      assert calls[0].Valid();
      ExchangeIsApply(b, slave, NextTid(tid), t, id, calls[0].stale, calls[0].request);
      RemoteRunIsDirectRun(b, slave, NextTid(tid), Apply(t, calls[0].request).0, id, calls[1..]);
    }
  }

  // ---------- cells no call writes ----------

  predicate WritesBit(r: Request, a: int) {
    match r
    case WriteBit(addr, _) => a == addr
    case WriteBits(addr, bits) => addr <= a < addr + |bits|
    case _ => false
  }

  predicate WritesRegister(r: Request, a: int) {
    match r
    case WriteRegister(addr, _) => a == addr
    case WriteRegisters(addr, values) => addr <= a < addr + |values|
    case MaskWrite(addr, _, _) => a == addr
    case WriteAndRead(addr, values, _, _) => addr <= a < addr + |values|
    case _ => false
  }

  lemma BitWriteKeepsOthers(t: Tables, r: Request, a: int)
    requires (r.WriteBit? || r.WriteBits?) && t.bits.Holds(a, 1) && !WritesBit(r, a)
    ensures Apply(t, r).0.bits.Read(a, 1) == t.bits.Read(a, 1)
  {
    var cells := Cells(if r.WriteBit? then [r.on] else r.bits);
    if t.bits.Holds(r.addr, |cells|) { t.bits.WriteThenRead(r.addr, cells, a, 1); }
  }

  lemma RegisterWriteKeepsOthers(t: Tables, r: Request, a: int)
    requires t.registers.Holds(a, 1) && !WritesRegister(r, a)
    ensures Apply(t, r).0.registers.Read(a, 1) == t.registers.Read(a, 1)
  {
    hide Masked;
    match r
    case WriteRegister(addr, value) =>
      if t.registers.Holds(addr, 1) { t.registers.WriteThenRead(addr, [value], a, 1); }
    case WriteRegisters(addr, values) =>
      if t.registers.Holds(addr, |values|) { t.registers.WriteThenRead(addr, values, a, 1); }
    case WriteAndRead(addr, values, _, _) =>
      if t.registers.Holds(addr, |values|) { t.registers.WriteThenRead(addr, values, a, 1); }
    case MaskWrite(addr, andMask, orMask) =>
      if t.registers.Holds(addr, 1) {
        t.registers.WriteThenRead(addr, [Masked(t.registers.Read(addr, 1)[0], andMask, orMask)], a, 1);
      }
    case _ =>
  }

  lemma ApplyKeepsShape(t: Tables, r: Request)
    ensures SameShape(t, Apply(t, r).0)
  {
    hide Masked;
  }

  lemma ApplyKeepsOthers(t: Tables, r: Request, a: int)
    ensures SameShape(t, Apply(t, r).0)
    ensures t.bits.Holds(a, 1) && !WritesBit(r, a) ==> Apply(t, r).0.bits.Read(a, 1) == t.bits.Read(a, 1)
    ensures t.registers.Holds(a, 1) && !WritesRegister(r, a) ==> Apply(t, r).0.registers.Read(a, 1) == t.registers.Read(a, 1)
  {
    hide WritesBit, WritesRegister, Masked;
    ApplyKeepsShape(t, r);
    if t.bits.Holds(a, 1) && !WritesBit(r, a) && (r.WriteBit? || r.WriteBits?) { BitWriteKeepsOthers(t, r, a); }
    if t.registers.Holds(a, 1) && !WritesRegister(r, a) { RegisterWriteKeepsOthers(t, r, a); }
  }

  /** A run leaves every cell that none of its calls writes, and both input tables, as they were. */
  lemma {:induction false} UntouchedCellsStay(t: Tables, calls: seq<Call>, a: int)
    requires DirectRun(t, calls).Completed?
    ensures SameShape(t, DirectRun(t, calls).tables)
    ensures t.bits.Holds(a, 1) && (forall i :: 0 <= i < |calls| ==> !WritesBit(calls[i].request, a)) ==>
      DirectRun(t, calls).tables.bits.Read(a, 1) == t.bits.Read(a, 1)
    ensures t.registers.Holds(a, 1) && (forall i :: 0 <= i < |calls| ==> !WritesRegister(calls[i].request, a)) ==>
      DirectRun(t, calls).tables.registers.Read(a, 1) == t.registers.Read(a, 1)
    decreases |calls|
  {
    if calls != [] {
      hide Apply, Outward, WritesBit, WritesRegister;
      ApplyKeepsOthers(t, calls[0].request, a);
      UntouchedCellsStay(Apply(t, calls[0].request).0, calls[1..], a);
    }
  }
}
