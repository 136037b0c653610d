/**
 The protocol byte for byte: what stands where in every frame, request and reply, and what the
 server answers to any bytes at all. Nothing here is said in terms of the encoding functions.
 */
module ModbusWire {
  import opened Bits
  import opened ModbusFrames
  import opened ModbusServer
  import opened ModbusClient
  import opened ModbusExchange
  import RtuCrc

  /** The 16-bit number at `at`, high byte first. */
  function Number(s: seq<Byte>, at: nat): Word
    requires at + 2 <= |s|
  {
    s[at] as int * 256 + s[at + 1] as int
  }

  // ---------- frames ----------

  /** A TCP frame: transaction, protocol, the number of bytes after the length field, unit, data unit. */
  lemma TcpFrameBytes(h: Header, pdu: seq<Byte>)
    requires |pdu| <= 253
    ensures var adu := Frame(Tcp, h, pdu);
      && |adu| == 7 + |pdu|
      && Number(adu, 0) == h.tid && Number(adu, 2) == h.protocol && Number(adu, 4) == |adu| - 6
      && adu[6] == h.slave && adu[7..] == pdu
  {
  }

  /** An RTU frame: address, data unit, and two bytes that bring the bitwise CRC to zero. */
  lemma RtuFrameBytes(h: Header, pdu: seq<Byte>)
    requires |pdu| <= 253
    ensures var adu := Frame(Rtu, h, pdu);
      && |adu| == 3 + |pdu|
      && adu[0] == h.slave && adu[1..1 + |pdu|] == pdu
      && RtuCrc.Fold(0xFFFF, adu) == 0
  {
    var body := [h.slave] + pdu;
    RtuCrc.FreshFrameAccepted(h.slave, body);
    RtuCrc.AcceptedIffResidueZero(h.slave, body + RtuCrc.CrcBytes(body));
    assert Frame(Rtu, h, pdu) == body + RtuCrc.CrcBytes(body);
    hide RtuCrc.CrcBytes;
    assert (body + RtuCrc.CrcBytes(body))[1..1 + |pdu|] == pdu;
  }

  // ---------- requests ----------

  /** The words of `values` stand in `s` from `at` on, high byte first. */
  ghost predicate WordsStand(s: seq<Byte>, at: nat, values: seq<Word>) {
    at + 2 * |values| <= |s| && forall i :: 0 <= i < |values| ==> Number(s, at + 2 * i) == values[i]
  }

  /** The bits of `bits` stand in `s` from `at` on, eight to a byte, lowest first. */
  ghost predicate BitsStand(s: seq<Byte>, at: nat, bits: seq<bool>) {
    at + (|bits| + 7) / 8 <= |s| && forall i :: 0 <= i < |bits| ==> Bit(s[at + i / 8], i % 8) == bits[i]
  }

  lemma WordsPlaced(front: seq<Byte>, values: seq<Word>)
    ensures WordsStand(front + Words(values), |front|, values)
  {
    var s := front + Words(values);
    forall i | 0 <= i < |values| ensures Number(s, |front| + 2 * i) == values[i] {
      WordsAt(values, i);
      JoinParts(values[i]);
    }
  }

  lemma BitsPlaced(front: seq<Byte>, bits: seq<bool>)
    ensures BitsStand(front + PackBits(bits), |front|, bits)
  {
    var s := front + PackBits(bits);
    forall i | 0 <= i < |bits| ensures Bit(s[|front| + i / 8], i % 8) == bits[i] {
      PackedBit(bits, i);
    }
  }

  /** Function, address, and the quantity or value, of the calls that send nothing else. */
  lemma ShortRequestBytes(r: Request)
    requires r.Buildable()
    ensures Number(r.Encode(), 1) == r.addr
    ensures r.ReadBits? ==> |r.Encode()| == 5 && r.Encode()[0] == (if r.input then 2 else 1) && Number(r.Encode(), 3) == r.nb
    ensures r.ReadRegisters? ==>
      |r.Encode()| == 5 && r.Encode()[0] == (if r.input then 4 else 3) && Number(r.Encode(), 3) == r.nb
    ensures r.WriteBit? ==>
      |r.Encode()| == 5 && r.Encode()[0] == 5 && Number(r.Encode(), 3) == if r.on then 0xFF00 else 0
    ensures r.WriteRegister? ==> |r.Encode()| == 5 && r.Encode()[0] == 6 && Number(r.Encode(), 3) == r.value
    ensures r.MaskWrite? ==>
      |r.Encode()| == 7 && r.Encode()[0] == 0x16 && Number(r.Encode(), 3) == r.andMask && Number(r.Encode(), 5) == r.orMask
  {
    JoinParts(r.addr);
    JoinParts(r.Count());
    if r.MaskWrite? { JoinParts(r.orMask); }
    hide PackBits, Words;
  }

  lemma WriteBitsBytes(r: Request)
    requires r.Buildable() && r.WriteBits?
    ensures var e := r.Encode();
      && |e| == 6 + (|r.bits| + 7) / 8 && e[0] == 0x0F && Number(e, 3) == |r.bits| && e[5] == |e| - 6
      && BitsStand(e, 6, r.bits)
  {
    var front := Basis(0x0F, r.addr, |r.bits|) + [ByteCount(|r.bits|)];
    BitsPlaced(front, r.bits);
    assert r.Encode() == front + PackBits(r.bits);
    JoinParts(|r.bits|);
    hide PackBits;
  }

  lemma WriteRegistersBytes(r: Request)
    requires r.Buildable() && r.WriteRegisters?
    ensures var e := r.Encode();
      && |e| == 6 + 2 * |r.values| && e[0] == 0x10 && Number(e, 3) == |r.values| && e[5] == |e| - 6
      && WordsStand(e, 6, r.values)
  {
    var front := Basis(0x10, r.addr, |r.values|) + [2 * |r.values|];
    hide Words, WordsStand, r.Encode;
    WordsPlaced(front, r.values);
    assert r.Encode() == front + Words(r.values) by { RegisterWriteText(r); }
    JoinParts(|r.values|);
  }

  lemma WriteAndReadBytes(r: Request)
    requires r.Buildable() && r.WriteAndRead?
    ensures var e := r.Encode();
      && |e| == 10 + 2 * |r.values| && e[0] == 0x17 && Number(e, 3) == r.nb
      && Number(e, 5) == r.writeAddr && Number(e, 7) == |r.values| && e[9] == |e| - 10
      && WordsStand(e, 10, r.values)
  {
    var front := Basis(0x17, r.addr, r.nb)
      + [Hi(r.writeAddr), Lo(r.writeAddr), Hi(|r.values|), Lo(|r.values|), 2 * |r.values|];
    hide Words, WordsStand, r.Encode;
    WordsPlaced(front, r.values);
    assert r.Encode() == front + Words(r.values) by { WriteAndReadText(r); }
    JoinParts(r.nb);
    JoinParts(r.writeAddr);
    JoinParts(|r.values|);
  }

  lemma RegisterWriteText(r: Request)
    requires r.Buildable() && r.WriteRegisters?
    ensures r.Encode() == Basis(0x10, r.addr, |r.values|) + [2 * |r.values|] + Words(r.values)
  {
    hide Words, Hi, Lo;
  }

  lemma WriteAndReadText(r: Request)
    requires r.Buildable() && r.WriteAndRead?
    ensures r.Encode() == Basis(0x17, r.addr, r.nb)
      + [Hi(r.writeAddr), Lo(r.writeAddr), Hi(|r.values|), Lo(|r.values|), 2 * |r.values|] + Words(r.values)
  {
    hide Words, Hi, Lo;
  }

  // ---------- replies ----------

  lemma RefusalBytes(r: Request, code: Byte)
    requires r.Buildable() && code < 12
    ensures ReplyPdu(r, Refused(code)) == [r.Encode()[0] as int + 128, code]
  {
    hide r.Encode;
  }

  lemma ReplyToReadBitsBytes(r: Request, cells: seq<Byte>)
    requires r.Buildable() && Fits(r, BitValues(cells)) && AllDigits(cells)
    ensures var e := ReplyPdu(r, BitValues(cells));
      && |e| == 2 + (|cells| + 7) / 8 && e[0] == r.Encode()[0] && e[1] == |e| - 2
      && BitsStand(e, 2, Flags(cells))
  {
    hide PackCells, PackBits, Flags, BitsStand, r.Encode;
    PackCellsOfDigits(cells);
    BitsPlaced([r.Function(), ByteCount(|cells|)], Flags(cells));
  }

  lemma ReplyToReadRegistersBytes(r: Request, values: seq<Word>)
    requires r.Buildable() && Fits(r, RegisterValues(values))
    ensures var e := ReplyPdu(r, RegisterValues(values));
      && |e| == 2 + 2 * |values| && e[0] == r.Encode()[0] && e[1] == |e| - 2
      && WordsStand(e, 2, values)
  {
    hide Words, WordsStand, r.Encode;
    WordsPlaced([r.Function(), 2 * |values|], values);
  }

  /** A write is answered with its own first five bytes, a single or masked one with all of it. */
  lemma ReplyToWriteBytes(r: Request)
    requires r.Buildable() && Fits(r, Written)
    ensures ReplyPdu(r, Written) == if r.WriteBits? || r.WriteRegisters? then r.Encode()[..5] else r.Encode()
  {
  }

  // ---------- the server on any bytes ----------

  /** The cells at `addr..addr + nb` all exist. */
  predicate Exist<T>(bank: Bank<T>, addr: int, nb: int) {
    bank.start <= addr && addr + nb <= bank.start + |bank.cells|
  }

  /** A function code that is none of the twelve is refused, and nothing changes. */
  lemma UnknownCodeRefused(t: Tables, p: seq<Byte>, id: seq<Byte>)
    requires |p| >= 253 && |id| <= 240
    requires p[0] !in {0x01, 0x02, 0x03, 0x04, 0x05, 0x06, 0x07, 0x0F, 0x10, 0x11, 0x16, 0x17}
    ensures Serve(t, p, id) == (t, Answer([(p[0] as int + 128) % 256, 1]))
  {
  }

  /** The two codes without an address: the server's identification, and no answer at all. */
  lemma CodesWithoutAddress(t: Tables, p: seq<Byte>, id: seq<Byte>)
    requires |p| >= 253 && |id| <= 240
    ensures p[0] == 0x11 ==> Serve(t, p, id) == (t, Answer([0x11, 2 + |id|, 180, 0xFF] + id))
    ensures p[0] == 0x07 ==> Serve(t, p, id) == (t, Unimplemented)
  {
  }

  /**
   Reads: nothing changes; a quantity of zero or above the limit gives code 3, then a missing cell
   code 2, and anything else an answer with the function itself.
   */
  ghost predicate ReadOutcome<T>(t: Tables, r: (Tables, Outcome), p: seq<Byte>, limit: nat, bank: Bank<T>)
    requires |p| >= 253 && p[0] < 128
  {
    var nb, held := Number(p, 3), Exist(bank, Number(p, 1), Number(p, 3));
    && r.0 == t
    && (nb < 1 || nb > limit ==> r.1 == Answer([p[0] as int + 128, 3]))
    && (1 <= nb <= limit && !held ==> r.1 == Answer([p[0] as int + 128, 2]))
    && (1 <= nb <= limit && held ==> r.1.Answer? && r.1.pdu != [] && r.1.pdu[0] == p[0])
  }

  lemma BitReadOutcome(t: Tables, bank: Bank<Byte>, p: seq<Byte>)
    requires |p| >= 253 && p[0] in {1, 2}
    ensures ReadOutcome(t, (t, ServeReadBits(bank, p)), p, 2000, bank)
  {
    hide PackCells, ByteCount, bank.Read, Exception;
    ExceptionBytes(p[0], 2);
    ExceptionBytes(p[0], 3);
    SameNumbers(p);
    hide Join, Number;
  }

  lemma ExceptionBytes(f: Byte, code: Byte)
    requires f < 128
    ensures Exception(f, code) == Answer([f as int + 128, code])
  {
  }

  lemma SameNumbers(p: seq<Byte>)
    requires |p| >= 5
    ensures Join(p[1], p[2]) == Number(p, 1) && Join(p[3], p[4]) == Number(p, 3)
  {
  }

  lemma RegisterReadOutcome(t: Tables, bank: Bank<Word>, p: seq<Byte>)
    requires |p| >= 253 && p[0] in {3, 4}
    ensures ReadOutcome(t, (t, ServeReadRegisters(bank, p)), p, 125, bank)
  {
    hide Words, bank.Read, Exception;
    ExceptionBytes(p[0], 2);
    ExceptionBytes(p[0], 3);
    SameNumbers(p);
    hide Join, Number;
  }

  lemma ReadsRefused(t: Tables, p: seq<Byte>, id: seq<Byte>)
    requires |p| >= 253 && |id| <= 240
    ensures p[0] == 1 ==> ReadOutcome(t, Serve(t, p, id), p, 2000, t.bits)
    ensures p[0] == 2 ==> ReadOutcome(t, Serve(t, p, id), p, 2000, t.inputBits)
    ensures p[0] == 3 ==> ReadOutcome(t, Serve(t, p, id), p, 125, t.registers)
    ensures p[0] == 4 ==> ReadOutcome(t, Serve(t, p, id), p, 125, t.inputRegisters)
  {
    hide ServeReadBits, ServeReadRegisters, ReadOutcome;
    if p[0] in {1, 2} {
      BitReadOutcome(t, if p[0] == 1 then t.bits else t.inputBits, p);
    } else if p[0] in {3, 4} {
      RegisterReadOutcome(t, if p[0] == 3 then t.registers else t.inputRegisters, p);
    }
  }

  /** Single writes: a missing cell gives code 2, a coil value other than 0xFF00 and 0 code 3. */
  lemma SingleWritesRefused(t: Tables, p: seq<Byte>, id: seq<Byte>)
    requires |p| >= 253 && |id| <= 240 && p[0] in {0x05, 0x06, 0x16}
    ensures var addr, value := Number(p, 1), Number(p, 3);
      var held := if p[0] == 0x05 then Exist(t.bits, addr, 1) else Exist(t.registers, addr, 1);
      && (!held ==> Serve(t, p, id) == (t, Answer([p[0] as int + 128, 2])))
      && (held && p[0] == 0x05 && value != 0xFF00 && value != 0 ==> Serve(t, p, id) == (t, Answer([0x85, 3])))
      && (held && (p[0] == 0x05 ==> value == 0xFF00 || value == 0) ==> Serve(t, p, id).1 == Echo)
  {
    hide Masked;
  }

  /** Multiple writes, likewise; the reply is the first five bytes of the request. */
  lemma MultipleWritesRefused(t: Tables, p: seq<Byte>, id: seq<Byte>)
    requires |p| >= 253 && |id| <= 240 && p[0] in {0x0F, 0x10}
    ensures var addr, nb := Number(p, 1), Number(p, 3);
      var limit := if p[0] == 0x0F then 1968 else 123;
      var held := if p[0] == 0x0F then Exist(t.bits, addr, nb) else Exist(t.registers, addr, nb);
      && (nb < 1 || nb > limit ==> Serve(t, p, id) == (t, Answer([p[0] as int + 128, 3])))
      && (1 <= nb <= limit && !held ==> Serve(t, p, id) == (t, Answer([p[0] as int + 128, 2])))
      && (1 <= nb <= limit && held ==> Serve(t, p, id).1 == Answer(p[..5]))
  {
    hide UnpackCells, ReadWords;
  }

  /** Write and read: either quantity or the byte count gives code 3, then a missing cell code 2. */
  lemma WriteAndReadRefused(t: Tables, p: seq<Byte>, id: seq<Byte>)
    requires |p| >= 253 && |id| <= 240 && p[0] == 0x17
    ensures var addr, nb, writeAddr, nbWrite := Number(p, 1), Number(p, 3), Number(p, 5), Number(p, 7);
      var fits := 1 <= nb <= 125 && 1 <= nbWrite <= 121 && p[9] == 2 * nbWrite;
      && (!fits ==> Serve(t, p, id) == (t, Answer([0x97, 3])))
      && (fits && (!Exist(t.registers, addr, nb) || writeAddr + nbWrite > t.registers.start + |t.registers.cells|) ==>
            Serve(t, p, id) == (t, Answer([0x97, 2])))
  {
    hide ReadWords, Words;
  }

  /** From end to end: a request of one unknown function byte is answered with exception 1. */
  lemma UnknownRequestIsAnswered(b: Backend, h: Header, f: Byte, t: Tables, id: seq<Byte>, stale: seq<Byte>, rest: seq<Byte>)
    requires |id| <= 240 && |stale| == 260
    requires f >= 8 && f !in {0x0F, 0x10, 0x11, 0x16, 0x17}
    ensures ServerTurn(b, h.slave, t, id, stale, Frame(b, h, [f]) + rest) ==
      Turned(t, if h.slave == 0 then [] else Frame(b, h.(protocol := 0), [(f as int + 128) % 256, 1]), rest)
  {
    hide RtuCrc.CrcBytes, Receive, Serve, RtuCrc.CheckIntegrity;
    var frame := Frame(b, h, [f]);
    FrameIsReceived(b, h, [f], Indication, rest);
    FrameIntact(b, h.slave, h, [f]);
    HeaderSurvives(b, h, [f]);
    var k := b.HeaderLength();
    assert Fill(frame, stale)[k..][0] == frame[k] == frame[k..k + 1][0];
    UnknownCodeRefused(t, Fill(frame, stale)[k..], id);
    SameFrame(b, h, HeaderOf(b, frame), [(f as int + 128) % 256, 1]);
  }

  lemma SameFrame(b: Backend, h: Header, g: Header, pdu: seq<Byte>)
    requires |pdu| <= 253 && g.slave == h.slave && (b.Tcp? ==> g == h)
    ensures Frame(b, g.(protocol := 0), pdu) == Frame(b, h.(protocol := 0), pdu)
  {
  }

  /** The bytes of a data unit that must be there for its length to be known: all but its announced data. */
  function Fixed(code: Byte, t: MessageType): nat {
    if t == Indication then
      if code <= 0x06 then 5
      else if code == 0x0F || code == 0x10 then 6
      else if code == 0x16 then 7
      else if code == 0x17 then 10
      else 1
    else
      if code in {0x05, 0x06, 0x0F, 0x10} then 5 else if code == 0x16 then 7 else 2
  }

  /** The announced data: the last of those bytes, for the codes that have any. */
  predicate Announces(code: Byte, t: MessageType) {
    if t == Indication then code in {0x0F, 0x10, 0x17} else code <= 0x04 || code in {0x11, 0x17}
  }

  /**
   Where a frame ends, and that it is too long exactly beyond 256 bytes on a serial line and 260 on
   TCP; a stream that stops earlier than that leaves the receiver without a frame.
   */
  lemma FrameEnd(b: Backend, s: seq<Byte>, t: MessageType)
    ensures var k := if b.Rtu? then 1 else 7;
      if |s| <= k || |s| < k + Fixed(s[k], t) then Receive(b, s, t) == Starved else
      var known := k + Fixed(s[k], t);
      var end := known + (if Announces(s[k], t) then s[known - 1] as int else 0) + if b.Rtu? then 2 else 0;
      Receive(b, s, t) ==
        if end > (if b.Rtu? then 256 else 260) then TooLong(s[known..])
        else if |s| < end then Starved
        else Whole(s[..end], s[end..])
  {
    var k := if b.Rtu? then 1 else 7;
    assert b.HeaderLength() == k;
    if |s| > k {
      assert 1 + MetaLength(s[k], t) == Fixed(s[k], t);
      if |s| >= k + Fixed(s[k], t) {
        var u := s[k..];
        assert u[0] == s[k];
        assert u[Fixed(s[k], t) - 1] == s[k + Fixed(s[k], t) - 1];
      }
    }
  }

  // ---------- what the client accepts ----------

  /**
   A confirmation that is counted is for this transaction or slave and this function, has the length
   computed from the request, and carries the quantity asked for.
   */
  lemma CountIsEarned(b: Backend, req: seq<Byte>, rsp: seq<Byte>, rspLength: nat)
    requires |req| >= b.HeaderLength() + 5 && |rsp| >= b.HeaderLength() + 5
    requires CheckConfirmation(b, req, rsp, rspLength).Count?
    ensures b.Tcp? ==> Number(rsp, 0) == Number(req, 0) && (rsp[2] == 0 || rsp[3] == 0)
    ensures b.Rtu? ==> rsp[0] == req[0] || req[0] == 0
    ensures var k := b.HeaderLength();
      && rsp[k] == req[k] < 0x80
      && (rsp[k] in {1, 2} ==> rspLength == k + 2 + rsp[k + 1] + b.ChecksumLength() && rsp[k + 1] == (Number(req, k + 3) + 7) / 8)
      && (rsp[k] in {3, 4, 0x17} ==> rspLength == k + 2 + 2 * Number(req, k + 3) + b.ChecksumLength())
      && (rsp[k] in {3, 4, 0x17} ==> rsp[k + 1] / 2 == Number(req, k + 3))
      && (rsp[k] in {0x0F, 0x10} ==> rspLength == k + 5 + b.ChecksumLength() && Number(rsp, k + 3) == Number(req, k + 3))
  {
  }

  /** A reply with the highest bit set is never a success: the code is handed on exactly when it is below 12 and the reply is well formed. */
  lemma ExceptionIsReported(b: Backend, req: seq<Byte>, rsp: seq<Byte>, rspLength: nat)
    requires |req| >= b.HeaderLength() + 5 && |rsp| >= b.HeaderLength() + 5
    requires PreCheck(b, req, rsp).Count? && rsp[b.HeaderLength()] >= 0x80
    ensures var k := b.HeaderLength();
      var known := rspLength == k + (if b.Rtu? then 4 else 2) && rsp[k] as int == req[k] as int + 128 && rsp[k + 1] < 12;
      CheckConfirmation(b, req, rsp, rspLength) == ModbusClient.Failed(if known then ExceptionCode(rsp[k + 1]) else BadExceptionCode)
  {
  }

  /** A TCP reply passes the header check exactly when its transaction is the request's and its protocol bytes are not both set. */
  lemma TcpHeaderPassesIff(req: seq<Byte>, rsp: seq<Byte>)
    requires |req| >= 12 && |rsp| >= 12
    ensures PreCheck(Tcp, req, rsp).Count? <==> Number(rsp, 0) == Number(req, 0) && (rsp[2] == 0 || rsp[3] == 0)
    ensures !PreCheck(Tcp, req, rsp).Count? ==>
      forall n: nat :: CheckConfirmation(Tcp, req, rsp, n) == ModbusClient.Failed(BadData)
  {
  }

  /** From end to end: the reply to another transaction is refused, whatever it carries. */
  lemma OtherTransactionRefused(slave: Byte, tid: Word, other: Word, r: Request, pdu: seq<Byte>, stale: seq<Byte>, rest: seq<Byte>)
    requires r.Buildable() && |stale| == 260 && other != tid && SelfDelimiting(pdu, Confirmation)
    ensures ClientTurn(Tcp, slave, r, RequestFrame(Tcp, tid, slave, r), stale, Frame(Tcp, Header(other, 0, slave), pdu) + rest)
      == Error(BadData)
  {
    hide Receive, CheckConfirmation, PreCheck, r.Encode, Frame;
    var req, frame := RequestFrame(Tcp, tid, slave, r), Frame(Tcp, Header(other, 0, slave), pdu);
    FrameIsReceived(Tcp, Header(other, 0, slave), pdu, Confirmation, rest);
    TcpFrameBytes(Header(other, 0, slave), pdu);
    TcpFrameBytes(Header(tid, 0, slave), r.Encode());
    var rsp := Fill(frame, stale);
    assert Number(rsp, 0) == Number(frame, 0);
    TcpHeaderPassesIff(req, rsp);
  }

  /** Successive calls carry different transaction numbers, and 65536 of them all there are. */
  lemma TransactionsDiffer(tid: Word)
    ensures NextTid(tid) != tid && NextTid(tid) == (tid + 1) % 65536
  {
  }
}
