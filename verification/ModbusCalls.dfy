/**
 The client calls of modbus.c as they run: filling a request buffer, and unpacking a checked
 reply into the caller's array. `RemoteCall` puts both ends together over ports that deliver
 bytes in pieces of any size.
 */
module ModbusCalls {
  import opened Bits
  import opened ModbusFrames
  import opened ModbusServer
  import opened ModbusClient
  import opened ModbusExchange
  import opened ModbusBuffers
  import opened ModbusReceiver
  import opened ModbusReply
  import RtuCrc

  // ---------- filling requests ----------

  /** The two nested loops of modbus_write_bits: a mask moving up a byte, a count over all bits. */
  method PackInto(src: seq<bool>, req: array<Byte>, at: nat) returns (end: nat)
    requires at + ByteCount(|src|) <= req.Length
    modifies req
    ensures end == at + ByteCount(|src|)
    ensures req[..] == Overlay(old(req[..]), at, PackBits(src))
  {
    ghost var before, done := req[..], [];
    var pos := 0;
    end := at;
    for i := 0 to ByteCount(|src|)
      invariant end == at + i && |done| == i && pos == if 8 * i <= |src| then 8 * i else |src|
      invariant done == PackBits(src)[..i] && req[..] == Overlay(before, at, done)
    {
      hide Overlay, PackBits;
      var value, posNext := PackByte(src, i);
      pos := posNext;
      PackBitsSnoc(src, i);
      Store(req, end, value, before, at, done);
      done := done + [value];
      end := end + 1;
    }
    assert PackBits(src)[..ByteCount(|src|)] == PackBits(src);
  }

  /** One turn of the outer loop: the bits of byte `i`, starting from a cleared byte. */
  method PackByte(src: seq<bool>, i: nat) returns (value: Byte, pos: nat)
    requires i < ByteCount(|src|)
    ensures value == ChunkByte(src, i) && pos == if 8 * i + 8 <= |src| then 8 * i + 8 else |src|
  {
    pos := 8 * i;
    var v: nat, bit := 0, 0;
    while bit < 8 && pos < |src|
      invariant 0 <= bit <= 8 && pos == 8 * i + bit <= |src|
      invariant v == FromBits(src[8 * i..pos])
    {
      hide FromBits, Or, Shl;
      FromBitsSnoc(src[8 * i..pos], src[pos]);
      assert src[8 * i..pos + 1] == src[8 * i..pos] + [src[pos]];
      if src[pos] {
        v := Or(v, Shl(1, bit));
      }
      pos := pos + 1;
      bit := bit + 1;
    }
    assert src[8 * i..pos] == Chunk(src, i);
    FromBitsIsByte(Chunk(src, i));
    value := v;
  }

  lemma PackBitsSnoc(src: seq<bool>, i: nat)
    requires i < ByteCount(|src|)
    ensures PackBits(src)[..i + 1] == PackBits(src)[..i] + [ChunkByte(src, i)]
  {
  }

  method PutWords(src: seq<Word>, req: array<Byte>, at: nat) returns (end: nat)
    requires at + 2 * |src| <= req.Length
    modifies req
    ensures end == at + 2 * |src| && req[..] == Overlay(old(req[..]), at, Words(src))
  {
    ghost var before, done := req[..], [];
    end := at;
    for i := 0 to |src|
      invariant end == at + 2 * i && done == Words(src[..i]) && req[..] == Overlay(before, at, done)
    {
      hide Words, Overlay, Hi, Lo;
      WordsSnoc(src, i);
      Store(req, end, Hi(src[i]), before, at, done);
      Store(req, end + 1, Lo(src[i]), before, at, done + [Hi(src[i])]);
      done := done + [Hi(src[i])] + [Lo(src[i])];
      end := end + 2;
    }
    assert src[..|src|] == src;
  }

  /** The few bytes in front of the values of a multiple write. */
  method PutBytes(bytes: seq<Byte>, req: array<Byte>, at: nat) returns (end: nat)
    requires at + |bytes| <= req.Length
    modifies req
    ensures end == at + |bytes| && req[..] == Overlay(old(req[..]), at, bytes)
  {
    forall i | 0 <= i < |bytes| {
      req[at + i] := bytes[i];
    }
    end := at + |bytes|;
  }

  /** What each call writes behind function, address and count. */
  method PutTail(r: Request, req: array<Byte>, at: nat) returns (end: nat)
    requires r.Buildable() && at + |r.Tail()| <= req.Length
    modifies req
    ensures end == at + |r.Tail()| && req[..] == Overlay(old(req[..]), at, r.Tail())
  {
    hide PackBits, Words, Overlay, Hi, Lo;
    ghost var before := req[..];
    match r
    case WriteBits(_, bits) =>
      var start: seq<Byte> := [ByteCount(|bits|)];
      end := PutBytes(start, req, at);
      end := PackInto(bits, req, end);
      OverlayTwice(before, at, start, PackBits(bits));
      assert r.Tail() == start + PackBits(bits);
    case WriteRegisters(_, values) =>
      var start: seq<Byte> := [2 * |values|];
      end := PutBytes(start, req, at);
      end := PutWords(values, req, end);
      OverlayTwice(before, at, start, Words(values));
      assert r.Tail() == start + Words(values);
    case WriteAndRead(writeAddr, values, _, _) =>
      var start: seq<Byte> := [Hi(writeAddr), Lo(writeAddr), Hi(|values|), Lo(|values|), 2 * |values|];
      end := PutBytes(start, req, at);
      end := PutWords(values, req, end);
      OverlayTwice(before, at, start, Words(values));
      assert r.Tail() == start + Words(values);
    case _ =>
      end := PutBytes(r.Tail(), req, at);
  }

  /** A whole request frame. The mask write builds its header with a count of 0 and writes over it. */
  method BuildRequest(b: Backend, tid: Word, slave: Byte, r: Request, req: array<Byte>) returns (length: nat)
    requires r.Buildable() && req.Length == 260
    modifies req
    ensures length <= 260 && req[..length] == RequestFrame(b, tid, slave, r)
  {
    hide r.Tail, r.Count, RtuCrc.CrcBytes, HeaderSet;
    var k := b.HeaderLength();
    length := BuildRequestBasis(b, tid, slave, r.Function(), r.addr, if r.MaskWrite? then 0 else r.Count(), req);
    ghost var h := Header(tid, 0, slave);
    ghost var start := req[..];
    if r.MaskWrite? {
      assert req[k..k + 5] == Basis(r.Function(), r.addr, 0);
      req[length - 2], req[length - 1] := Hi(r.andMask), Lo(r.andMask);
      SameCount(r);
      assert req[k..k + 5] == Basis(r.Function(), r.addr, r.Count());
    }
    HeaderKept(b, start, req[..], h);
    start := req[..];
    TailFits(r);
    length := PutTail(r, req, length);
    assert req[..k + 5] == start[..k + 5];
    HeaderKept(b, start, req[..], h);
    RequestInPlace(r, start, req[..], k);
    assert req[..][k..length] == req[k..length];
    length := SendMsgPre(b, req, length, h);
  }

  lemma TailFits(r: Request)
    requires r.Buildable()
    ensures r.Encode() == Basis(r.Function(), r.addr, r.Count()) + r.Tail() && 5 + |r.Tail()| <= MAX_PDU_LENGTH
  {
    hide r.Tail, r.Count;
  }

  lemma RequestInPlace(r: Request, start: seq<Byte>, content: seq<Byte>, k: nat)
    requires r.Buildable() && k + 5 + |r.Tail()| <= |start| && start[k..k + 5] == Basis(r.Function(), r.addr, r.Count())
    requires content == Overlay(start, k + 5, r.Tail())
    ensures content[k..k + |r.Encode()|] == r.Encode()
  {
    hide r.Tail, r.Count;
    TailFits(r);
    assert content[k..k + 5] == start[k..k + 5];
    assert content[k + 5..k + |r.Encode()|] == r.Tail();
  }

  lemma SameCount(r: Request)
    requires r.MaskWrite?
    ensures r.Count() == r.andMask
  {
  }

  lemma HeaderKept(b: Backend, before: seq<Byte>, after: seq<Byte>, h: Header)
    requires HeaderSet(b, before, h) && |before| >= 7 && |after| >= 7
    requires before[..b.HeaderLength()] == after[..b.HeaderLength()]
    ensures HeaderSet(b, after, h)
  {
    var k := b.HeaderLength();
    assert forall i :: 0 <= i < k ==> before[i] == before[..k][i] == after[..k][i] == after[i];
    if b.Tcp? {
      assert before[..4] == after[..4];
    }
  }

  // ---------- unpacking replies ----------

  /** The loops of read_io_status: bytes outside, a mask inside, a position that stops at `nb`. */
  method UnpackInto(rsp: array<Byte>, from: nat, count: nat, nb: nat, dest: array<Byte>)
    requires from + count <= rsp.Length && count == ByteCount(nb) && nb <= dest.Length && rsp != dest
    modifies dest
    ensures dest[..] == Overlay(old(dest[..]), 0, UnpackCells(rsp[from..], nb))
  {
    ghost var before, cells := dest[..], UnpackCells(rsp[from..], nb);
    var pos := 0;
    for i := from to from + count
      invariant pos == if i == from + count then nb else 8 * (i - from)
      invariant dest[..] == Overlay(before, 0, cells[..pos])
    {
      hide UnpackCells, Overlay;
      pos := UnpackByte(rsp, from, i - from, nb, dest, cells, before);
    }
    assert cells[..nb] == cells;
  }

  /** The inner loop: the bits of one byte, fewer in the last one. */
  method UnpackByte(rsp: array<Byte>, from: nat, k: nat, nb: nat, dest: array<Byte>, ghost cells: seq<Byte>, ghost before: seq<Byte>)
    returns (pos: nat)
    requires k < ByteCount(nb) && from + ByteCount(nb) <= rsp.Length && nb <= dest.Length == |before| && rsp != dest
    requires cells == UnpackCells(rsp[from..], nb) && dest[..] == Overlay(before, 0, cells[..8 * k])
    modifies dest
    ensures pos == (if k == ByteCount(nb) - 1 then nb else 8 * k + 8) && pos <= nb
    ensures dest[..] == Overlay(before, 0, cells[..pos])
  {
    var temp := rsp[from + k];
    var bit := 0;
    pos := 8 * k;
    while bit < 8 && pos < nb
      invariant bit <= 8 && pos == 8 * k + bit <= nb
      invariant dest[..] == Overlay(before, 0, cells[..pos])
      decreases 8 - bit
    {
      hide *;
      BitPlace(k, bit);
      UnpackAt(rsp[from..], nb, pos);
      StoreNext(dest, pos, if Bit(temp, bit) then 1 else 0, before, 0, cells, pos);
      pos := pos + 1;
      bit := bit + 1;
    }
  }

  lemma BitPlace(k: nat, bit: nat)
    requires bit < 8
    ensures (8 * k + bit) / 8 == k && (8 * k + bit) % 8 == bit
  {
  }

  /** What a finished call has done to the caller's two arrays. */
  ghost predicate HandedOver(result: CallResult, bits0: seq<Byte>, bits: seq<Byte>, registers0: seq<Word>, registers: seq<Word>) {
    match result
    case BitsRead(cells) => |cells| <= |bits0| && bits == Overlay(bits0, 0, cells) && registers == registers0
    case RegistersRead(values) => |values| <= |registers0| && registers == Overlay(registers0, 0, values) && bits == bits0
    case _ => bits == bits0 && registers == registers0
  }

  /** Room for what the call reads, in arrays of the caller's own. */
  ghost predicate Roomy(r: Request, bits: array<Byte>, registers: array<Word>) {
    && (r.ReadBits? ==> r.nb <= bits.Length)
    && (r.ReadRegisters? || r.WriteAndRead? ==> r.nb <= registers.Length)
    && (registers as object) != bits
  }

  /** The end of every call: check_confirmation, then the unpacking loop the call has. */
  method FinishCall(b: Backend, r: Request, req: array<Byte>, rsp: array<Byte>, rspLength: nat, bits: array<Byte>, registers: array<Word>)
    returns (checked: Checked)
    requires r.Buildable() && req.Length == 260 && rsp.Length == 260 && Roomy(r, bits, registers)
    requires req[..][b.HeaderLength()..b.HeaderLength() + 5] == r.Encode()[..5]
    requires rsp != bits && req != bits && (registers as object) != rsp && (registers as object) != req
    modifies bits, registers
    ensures checked == CheckConfirmation(b, req[..], rsp[..], rspLength)
    ensures checked.Count? && r.ReadBits? ==> checked.n == ByteCount(r.nb)
    ensures checked.Count? && (r.ReadRegisters? || r.WriteAndRead?) ==> checked.n == r.nb
    ensures HandedOver(Finish(b, r, req[..], rsp[..], rspLength), old(bits[..]), bits[..], old(registers[..]), registers[..])
  {
    hide CheckConfirmation, r.Encode, UnpackCells, ReadWords;
    var k := b.HeaderLength();
    ghost var request, reply := req[..], rsp[..];
    checked := CheckConfirmation(b, req[..], rsp[..], rspLength);
    assert rsp[..][k + 2..] == rsp[k + 2..];
    if checked.Count? {
      if r.ReadBits? {
        CountOfReadBits(b, r, request, reply, rspLength);
        UnpackInto(rsp, k + 2, checked.n, r.nb, bits);
      } else if r.ReadRegisters? || r.WriteAndRead? {
        CountOfReadRegisters(b, r, request, reply, rspLength);
        SetRegisters(registers, 0, checked.n, rsp, k + 2);
      }
    }
    assert req[..] == request && rsp[..] == reply;
  }

  // ---------- both ends together ----------

  method FrameArrived(b: Backend, slave: int, msg: array<Byte>, length: nat) returns (r: RtuCrc.Integrity)
    requires 2 <= length <= msg.Length
    ensures r == Integrity(b, slave, msg[..length])
  {
    match b
    case Rtu => r := RtuCrc.CheckFrame(slave, msg, length);
    case Tcp => r := RtuCrc.Accepted(length);
  }

  /** The tables of a server, apart from the arrays of a caller. */
  ghost predicate Apart(m: Mapping, bits: array<Byte>, registers: array<Word>) {
    && m.Separate() && bits != m.tabBits && bits != m.tabInputBits
    && registers != m.tabRegisters && registers != m.tabInputRegisters
    && (registers as object) != bits && (registers as object) != m.tabBits && (registers as object) != m.tabInputBits
    && (m.tabRegisters as object) != m.tabBits && (m.tabRegisters as object) != m.tabInputBits && (m.tabRegisters as object) != bits
    && (m.tabInputRegisters as object) != m.tabBits && (m.tabInputRegisters as object) != bits
  }

  /** modbus_receive and modbus_reply on a request that is coming in. */
  method ServeRequest(b: Backend, slave: Byte, m: Mapping, id: seq<Byte>, port: Port, ghost tid: Word, ghost r: Request) returns (sent: seq<Byte>)
    requires r.Buildable() && |id| <= 240 && m.Separate() && !Escapes(m.Tables(), r)
    requires (m.tabRegisters as object) != m.tabBits && (m.tabRegisters as object) != m.tabInputBits
    requires (m.tabInputRegisters as object) != m.tabBits
    requires port.pending == RequestFrame(b, tid, slave, r)
    modifies port, m.tabBits, m.tabRegisters
    ensures m.Tables() == Apply(old(m.Tables()), r).0 && port.pending == []
    ensures sent == if slave == BROADCAST then [] else ReplyFrameTo(b, tid, slave, old(m.Tables()), r)
  {
    hide r.Encode, Receive, Apply, ReplyTurn, ReplyFrameTo, Escapes, Integrity, RtuCrc.CrcBytes, Frame;
    var req, rsp := new Byte[260], new Byte[260];
    ghost var frame, t := port.pending, m.Tables();
    RequestArrives(b, tid, slave, r);
    var got := ReceiveMessage(b, port, req, Indication);
    assert req[..got.n] == frame;
    var intact := FrameArrived(b, slave, req, got.n);
    RequestTurn(b, tid, slave, t, id, req[..], r, []);
    var status, n := Reply(b, m, id, req, got.n, rsp);
    sent := rsp[..n];
  }

  lemma RequestArrives(b: Backend, tid: Word, slave: Byte, r: Request)
    requires r.Buildable()
    ensures var frame := RequestFrame(b, tid, slave, r);
            && Receive(b, frame, Indication) == Whole(frame, [])
            && b.HeaderLength() + 1 + b.ChecksumLength() <= |frame| <= b.MaxAduLength()
            && Integrity(b, slave, frame) == RtuCrc.Accepted(|frame|)
  {
    hide r.Encode, Receive, RtuCrc.CrcBytes;
    RequestIsSelfDelimiting(r);
    FrameIsReceived(b, Header(tid, 0, slave), r.Encode(), Indication, []);
    assert RequestFrame(b, tid, slave, r) + [] == RequestFrame(b, tid, slave, r);
    FrameIntact(b, slave, Header(tid, 0, slave), r.Encode());
  }

  lemma ReplyArrives(b: Backend, tid: Word, slave: Byte, r: Request, result: Result)
    requires r.Buildable() && Fits(r, result)
    ensures var frame := ReplyFrame(b, tid, slave, r, result);
            && Receive(b, frame, Confirmation) == Whole(frame, [])
            && 2 <= |frame| <= b.MaxAduLength()
            && Integrity(b, slave, frame) == RtuCrc.Accepted(|frame|)
  {
    hide r.Encode, ReplyPdu, Receive, RtuCrc.CrcBytes;
    ReplyLength(b, r, result, RequestFrame(b, tid, slave, r));
    ReplyIsSelfDelimiting(r, result);
    FrameIsReceived(b, Header(tid, 0, slave), ReplyPdu(r, result), Confirmation, []);
    assert ReplyFrame(b, tid, slave, r, result) + [] == ReplyFrame(b, tid, slave, r, result);
    FrameIntact(b, slave, Header(tid, 0, slave), ReplyPdu(r, result));
  }

  /** What the public functions return: how many values were read or written, or the error. */
  function ReturnValue(outward: CallResult): Checked {
    match outward
    case Error(e) => ModbusClient.Failed(e)
    case Acknowledged(n) => Count(n)
    case BitsRead(cells) => Count(|cells|)
    case RegistersRead(values) => Count(|values|)
  }

  /** The check's count is the return value, except for a read of bits, which returns their number. */
  lemma CountReturned(b: Backend, r: Request, result: Result, req: seq<Byte>, rsp: seq<Byte>, length: nat)
    requires r.Buildable() && Fits(r, result) && |rsp| == 260
    requires |req| >= b.HeaderLength() + 5 && req[b.HeaderLength()..b.HeaderLength() + 5] == r.Encode()[..5]
    requires Finish(b, r, req, rsp, length) == Outward(r, result)
    ensures var checked := CheckConfirmation(b, req, rsp, length);
      ReturnValue(Outward(r, result)) == if r.ReadBits? && checked.Count? then Count(r.nb) else checked
  {
    hide CheckConfirmation, r.Encode;
  }

  /** The receiving half of a call. */
  method AwaitReply(b: Backend, slave: Byte, port: Port, ghost tid: Word, r: Request, ghost result: Result, req: array<Byte>,
                    bits: array<Byte>, registers: array<Word>) returns (checked: Checked)
    requires r.Buildable() && Fits(r, result) && (result.BitValues? ==> AllDigits(result.cells))
    requires req.Length == 260 && RequestFrame(b, tid, slave, r) <= req[..] && Roomy(r, bits, registers)
    requires req != bits && (registers as object) != req
    requires port.pending == ReplyFrame(b, tid, slave, r, result)
    modifies port, bits, registers
    ensures HandedOver(Outward(r, result), old(bits[..]), bits[..], old(registers[..]), registers[..])
    ensures checked == ReturnValue(Outward(r, result))
  {
    hide r.Encode, Receive, Integrity, RtuCrc.CrcBytes, Frame, CheckConfirmation, HandedOver, ReplyFrame, Outward, UnpackCells, ReadWords;
    var rsp := new Byte[260];
    ghost var frame := port.pending;
    ReplyArrives(b, tid, slave, r, result);
    var got := ReceiveMessage(b, port, rsp, Confirmation);
    assert rsp[..got.n] == frame;
    var intact := FrameArrived(b, slave, rsp, got.n);
    ReplyIsFinished(b, tid, slave, r, result, req[..], rsp[..]);
    checked := FinishCall(b, r, req, rsp, intact.length, bits, registers);
    if r.ReadBits? && checked.Count? {
      checked := Count(r.nb);
    }
    CountReturned(b, r, result, req[..], rsp[..], intact.length);
  }

  /**
   A whole call, from the request buffer to the caller's array, with every byte carried by the
   buffers and ports above: the tables end as after the direct operation, the caller's arrays hold
   its result, and the return value is the count or the exception code the server chose.
   */
  method RemoteCall(b: Backend, slave: Byte, tid: Word, m: Mapping, id: seq<Byte>, r: Request, bits: array<Byte>, registers: array<Word>)
    returns (checked: Checked)
    requires r.Buildable() && |id| <= 240 && slave != BROADCAST
    requires Apart(m, bits, registers) && Roomy(r, bits, registers)
    requires m.Tables().Valid() && !Escapes(m.Tables(), r)
    modifies m.tabBits, m.tabRegisters, bits, registers
    ensures m.Tables() == Apply(old(m.Tables()), r).0 && m.Tables().Valid()
    ensures var outward := Outward(r, Apply(old(m.Tables()), r).1);
            && HandedOver(outward, old(bits[..]), bits[..], old(registers[..]), registers[..])
            && checked == ReturnValue(outward)
  {
    hide r.Encode, RtuCrc.CrcBytes, HandedOver, Escapes, Outward, RequestFrame, ReplyFrame;
    var req := new Byte[260];
    var length := BuildRequest(b, NextTid(tid), slave, r, req);
    var toServer := new Port(req[..length]);
    ghost var t := m.Tables();
    var sent := ServeRequest(b, slave, m, id, toServer, NextTid(tid), r);
    ApplyFits(t, r);
    ApplyKeepsValid(t, r);
    var toClient := new Port(sent);
    checked := AwaitReply(b, slave, toClient, NextTid(tid), r, Apply(t, r).1, req, bits, registers);
  }
}
