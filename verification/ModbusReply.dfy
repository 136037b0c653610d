/**
 modbus_reply as it runs: on a request buffer, a reply buffer and the arrays of a mapping.
 Each branch is shown to compute the corresponding branch of `Serve`.
 */
module ModbusReply {
  import opened Bits
  import opened ModbusFrames
  import opened ModbusServer
  import opened ModbusBuffers
  import opened ModbusExchange
  import RtuCrc

  /** modbus_mapping_t */
  class Mapping {
    const startBits: nat
    const startInputBits: nat
    const startRegisters: nat
    const startInputRegisters: nat
    const tabBits: array<Byte>
    const tabInputBits: array<Byte>
    const tabRegisters: array<Word>
    const tabInputRegisters: array<Word>

    /** modbus_mapping_new_start_address: four tables of zeros. */
    constructor (startBits: nat, nbBits: nat, startInputBits: nat, nbInputBits: nat,
                 startRegisters: nat, nbRegisters: nat, startInputRegisters: nat, nbInputRegisters: nat)
      ensures Separate() && fresh(tabBits) && fresh(tabInputBits) && fresh(tabRegisters) && fresh(tabInputRegisters)
      ensures Tables().Valid()
      ensures Tables() == ModbusServer.Tables(
        Bank(startBits, Zeros(nbBits)), Bank(startInputBits, Zeros(nbInputBits)),
        Bank(startRegisters, Zeros(nbRegisters)), Bank(startInputRegisters, Zeros(nbInputRegisters)))
    {
      this.startBits, this.startInputBits := startBits, startInputBits;
      this.startRegisters, this.startInputRegisters := startRegisters, startInputRegisters;
      tabBits := new Byte[nbBits](_ => 0);
      tabInputBits := new Byte[nbInputBits](_ => 0);
      tabRegisters := new Word[nbRegisters](_ => 0);
      tabInputRegisters := new Word[nbInputRegisters](_ => 0);
      new;
      assert tabBits[..] == Zeros(nbBits) && tabInputBits[..] == Zeros(nbInputBits);
      assert tabRegisters[..] == Zeros(nbRegisters) && tabInputRegisters[..] == Zeros(nbInputRegisters);
    }

    /** The four tables are different arrays. */
    ghost predicate Separate() {
      tabBits != tabInputBits && tabRegisters != tabInputRegisters
    }

    ghost function Tables(): Tables
      reads tabBits, tabInputBits, tabRegisters, tabInputRegisters
    {
      ModbusServer.Tables(
        Bank(startBits, tabBits[..]), Bank(startInputBits, tabInputBits[..]),
        Bank(startRegisters, tabRegisters[..]), Bank(startInputRegisters, tabInputRegisters[..]))
    }
  }

  function Zeros(n: nat): seq<Byte> {
    seq(n, _ => 0)
  }

  // ---------- the branches ----------

  /** The reply buffer holds the message an outcome calls for, up to send_msg_pre. */
  predicate Ready(b: Backend, o: Outcome, h: Header, request: seq<Byte>, rsp: seq<Byte>, length: nat) {
    match o
    case Answer(pdu) =>
      && HeaderSet(b, rsp, h) && |pdu| <= MAX_PDU_LENGTH
      && b.HeaderLength() <= length <= |rsp| && rsp[b.HeaderLength()..length] == pdu
    case Echo => length == |request| <= |rsp| && rsp[..length] == request
    case _ => true
  }

  method ReplyException(b: Backend, h: Header, function_: Byte, code: Byte, rsp: array<Byte>, ghost request: seq<Byte>) returns (length: nat)
    requires rsp.Length == 260 && h.protocol == 0
    modifies rsp
    ensures Ready(b, Exception(function_, code), h, request, rsp[..], length)
  {
    length := BuildResponseBasis(b, h.tid, h.slave, (function_ + 0x80) % 0x100, rsp);
    rsp[length] := code;
    length := length + 1;
  }

  /** memcpy(rsp, req, req_length) */
  method CopyRequest(req: array<Byte>, length: nat, rsp: array<Byte>)
    requires length <= req.Length && length <= rsp.Length && rsp != req
    modifies rsp
    ensures rsp[..length] == req[..length]
  {
    forall i | 0 <= i < length {
      rsp[i] := req[i];
    }
  }

  method ReplyReadBits(b: Backend, h: Header, start: nat, tab: array<Byte>, req: array<Byte>, rsp: array<Byte>, ghost request: seq<Byte>)
    returns (length: nat)
    requires req.Length >= b.HeaderLength() + MAX_PDU_LENGTH && rsp.Length == 260 && rsp != req && rsp != tab && h.protocol == 0
    modifies rsp
    ensures Ready(b, ServeReadBits(Bank(start, tab[..]), req[b.HeaderLength()..]), h, request, rsp[..], length)
  {
    hide Join, PackCells;
    var k := b.HeaderLength();
    var address, nb := Join(req[k + 1], req[k + 2]), Join(req[k + 3], req[k + 4]);
    if nb < 1 || MAX_READ_BITS < nb {
      length := ReplyException(b, h, req[k], ILLEGAL_DATA_VALUE, rsp, request);
    } else if address - start < 0 || address - start + nb > tab.Length {
      length := ReplyException(b, h, req[k], ILLEGAL_DATA_ADDRESS, rsp, request);
    } else {
      length := BuildResponseBasis(b, h.tid, h.slave, req[k], rsp);
      rsp[length] := ByteCount(nb);
      length := PutBits(tab, address - start, nb, rsp, length + 1);
      assert tab[..][address - start..address - start + nb] == tab[address - start..address - start + nb];
    }
  }

  /** A reply that carries registers: their number in bytes, then each one. */
  method ReportRegisters(b: Backend, h: Header, start: nat, tab: array<Word>, address: Word, nb: Word, function_: Byte,
                         rsp: array<Byte>, ghost request: seq<Byte>) returns (length: nat)
    requires rsp.Length == 260 && h.protocol == 0 && (tab as object) != rsp
    requires nb <= MAX_READ_REGISTERS && Bank(start, tab[..]).Holds(address, nb)
    modifies rsp
    ensures Ready(b, Answer([function_, 2 * nb] + Words(Bank(start, tab[..]).Read(address, nb))), h, request, rsp[..], length)
  {
    hide Words;
    length := BuildResponseBasis(b, h.tid, h.slave, function_, rsp);
    rsp[length] := 2 * nb;
    length := PutRegisters(tab, address - start, nb, rsp, length + 1);
    assert tab[..][address - start..address - start + nb] == tab[address - start..address - start + nb];
  }

  method ReplyReadRegisters(b: Backend, h: Header, start: nat, tab: array<Word>, req: array<Byte>, rsp: array<Byte>, ghost request: seq<Byte>)
    returns (length: nat)
    requires req.Length >= b.HeaderLength() + MAX_PDU_LENGTH && rsp.Length == 260 && rsp != req && h.protocol == 0
    requires (tab as object) != rsp
    modifies rsp
    ensures Ready(b, ServeReadRegisters(Bank(start, tab[..]), req[b.HeaderLength()..]), h, request, rsp[..], length)
  {
    hide Join, Words;
    var k := b.HeaderLength();
    var address, nb := Join(req[k + 1], req[k + 2]), Join(req[k + 3], req[k + 4]);
    if nb < 1 || MAX_READ_REGISTERS < nb {
      length := ReplyException(b, h, req[k], ILLEGAL_DATA_VALUE, rsp, request);
    } else if address - start < 0 || address - start + nb > tab.Length {
      length := ReplyException(b, h, req[k], ILLEGAL_DATA_ADDRESS, rsp, request);
    } else {
      length := ReportRegisters(b, h, start, tab, address, nb, req[k], rsp, request);
    }
  }

  method ReplyWriteBit(b: Backend, h: Header, start: nat, tab: array<Byte>, req: array<Byte>, length0: nat, rsp: array<Byte>)
    returns (length: nat)
    requires req.Length >= b.HeaderLength() + MAX_PDU_LENGTH && rsp.Length == 260 && h.protocol == 0
    requires rsp != req && rsp != tab && tab != req && length0 <= req.Length && length0 <= 260
    modifies rsp, tab
    ensures var (bank, o) := ServeWriteBit(Bank(start, old(tab[..])), req[b.HeaderLength()..]);
            bank.start == start && tab[..] == bank.cells && Ready(b, o, h, req[..length0], rsp[..], length)
  {
    hide Join;
    var k := b.HeaderLength();
    var address := Join(req[k + 1], req[k + 2]);
    if address - start < 0 || address - start >= tab.Length {
      length := ReplyException(b, h, req[k], ILLEGAL_DATA_ADDRESS, rsp, req[..length0]);
    } else {
      var data := Join(req[k + 3], req[k + 4]);
      if data == 0xFF00 || data == 0 {
        tab[address - start] := if data != 0 then 1 else 0;
        CopyRequest(req, length0, rsp);
        length := length0;
      } else {
        length := ReplyException(b, h, req[k], ILLEGAL_DATA_VALUE, rsp, req[..length0]);
      }
    }
  }

  method ReplyWriteRegister(b: Backend, h: Header, start: nat, tab: array<Word>, req: array<Byte>, length0: nat, rsp: array<Byte>)
    returns (length: nat)
    requires req.Length >= b.HeaderLength() + MAX_PDU_LENGTH && rsp.Length == 260 && h.protocol == 0
    requires rsp != req && length0 <= req.Length && length0 <= 260
    requires (tab as object) != rsp && (tab as object) != req
    modifies rsp, tab
    ensures var (bank, o) := ServeWriteRegister(Bank(start, old(tab[..])), req[b.HeaderLength()..]);
            bank.start == start && tab[..] == bank.cells && Ready(b, o, h, req[..length0], rsp[..], length)
  {
    hide Join;
    var k := b.HeaderLength();
    var address := Join(req[k + 1], req[k + 2]);
    if address - start < 0 || address - start >= tab.Length {
      length := ReplyException(b, h, req[k], ILLEGAL_DATA_ADDRESS, rsp, req[..length0]);
    } else {
      tab[address - start] := Join(req[k + 3], req[k + 4]);
      CopyRequest(req, length0, rsp);
      length := length0;
    }
  }

  method ReplyMaskWrite(b: Backend, h: Header, start: nat, tab: array<Word>, req: array<Byte>, length0: nat, rsp: array<Byte>)
    returns (length: nat)
    requires req.Length >= b.HeaderLength() + MAX_PDU_LENGTH && rsp.Length == 260 && h.protocol == 0
    requires rsp != req && length0 <= req.Length && length0 <= 260
    requires (tab as object) != rsp && (tab as object) != req
    modifies rsp, tab
    ensures var (bank, o) := ServeMaskWrite(Bank(start, old(tab[..])), req[b.HeaderLength()..]);
            bank.start == start && tab[..] == bank.cells && Ready(b, o, h, req[..length0], rsp[..], length)
  {
    hide Join, Masked;
    var k := b.HeaderLength();
    var address := Join(req[k + 1], req[k + 2]);
    if address - start < 0 || address - start >= tab.Length {
      length := ReplyException(b, h, req[k], ILLEGAL_DATA_ADDRESS, rsp, req[..length0]);
    } else {
      var data := tab[address - start];
      tab[address - start] := Masked(data, Join(req[k + 3], req[k + 4]), Join(req[k + 5], req[k + 6]));
      CopyRequest(req, length0, rsp);
      length := length0;
    }
  }

  /** The start of the reply to a multiple write: function, address and quantity of the request. */
  method AcknowledgeWrite(b: Backend, h: Header, req: array<Byte>, rsp: array<Byte>, ghost request: seq<Byte>) returns (length: nat)
    requires req.Length >= b.HeaderLength() + MAX_PDU_LENGTH && rsp.Length == 260 && rsp != req && h.protocol == 0
    modifies rsp
    ensures Ready(b, Answer(req[b.HeaderLength()..][..5]), h, request, rsp[..], length)
  {
    var k := b.HeaderLength();
    length := BuildResponseBasis(b, h.tid, h.slave, req[k], rsp);
    forall i | length <= i < length + 4 {
      rsp[i] := req[i];
    }
    length := length + 4;
  }

  method ReplyWriteBits(b: Backend, h: Header, start: nat, tab: array<Byte>, req: array<Byte>, rsp: array<Byte>, ghost request: seq<Byte>)
    returns (length: nat)
    requires req.Length >= b.HeaderLength() + MAX_PDU_LENGTH && rsp.Length == 260 && h.protocol == 0
    requires rsp != req && rsp != tab && tab != req
    modifies rsp, tab
    ensures var (bank, o) := ServeWriteBits(Bank(start, old(tab[..])), req[b.HeaderLength()..]);
            bank.start == start && tab[..] == bank.cells && Ready(b, o, h, request, rsp[..], length)
  {
    hide Join, UnpackCells, Ready;
    var k := b.HeaderLength();
    var address, nb := Join(req[k + 1], req[k + 2]), Join(req[k + 3], req[k + 4]);
    if nb < 1 || MAX_WRITE_BITS < nb {
      length := ReplyException(b, h, req[k], ILLEGAL_DATA_VALUE, rsp, request);
    } else if address - start < 0 || address - start + nb > tab.Length {
      length := ReplyException(b, h, req[k], ILLEGAL_DATA_ADDRESS, rsp, request);
    } else {
      SetBitsFromBytes(tab, address - start, nb, req, k + 6);
      assert req[k..][6..] == req[k + 6..];
      length := AcknowledgeWrite(b, h, req, rsp, request);
    }
  }

  method ReplyWriteRegisters(b: Backend, h: Header, start: nat, tab: array<Word>, req: array<Byte>, rsp: array<Byte>, ghost request: seq<Byte>)
    returns (length: nat)
    requires req.Length >= b.HeaderLength() + MAX_PDU_LENGTH && rsp.Length == 260 && h.protocol == 0
    requires rsp != req && (tab as object) != rsp && (tab as object) != req
    modifies rsp, tab
    ensures var (bank, o) := ServeWriteRegisters(Bank(start, old(tab[..])), req[b.HeaderLength()..]);
            bank.start == start && tab[..] == bank.cells && Ready(b, o, h, request, rsp[..], length)
  {
    hide Join, ReadWords, Ready;
    var k := b.HeaderLength();
    var address, nb := Join(req[k + 1], req[k + 2]), Join(req[k + 3], req[k + 4]);
    if nb < 1 || MAX_WRITE_REGISTERS < nb {
      length := ReplyException(b, h, req[k], ILLEGAL_DATA_VALUE, rsp, request);
    } else if address - start < 0 || address - start + nb > tab.Length {
      length := ReplyException(b, h, req[k], ILLEGAL_DATA_ADDRESS, rsp, request);
    } else {
      SetRegisters(tab, address - start, nb, req, k + 6);
      assert req[k..][6..] == req[k + 6..];
      length := AcknowledgeWrite(b, h, req, rsp, request);
    }
  }

  /** Stops where the program would write in front of its table. */
  method ReplyWriteAndRead(b: Backend, h: Header, start: nat, tab: array<Word>, req: array<Byte>, rsp: array<Byte>, ghost request: seq<Byte>)
    returns (outside: bool, length: nat)
    requires req.Length >= b.HeaderLength() + MAX_PDU_LENGTH && rsp.Length == 260 && h.protocol == 0
    requires rsp != req && (tab as object) != rsp && (tab as object) != req
    modifies rsp, tab
    ensures var (bank, o) := ServeWriteAndRead(Bank(start, old(tab[..])), req[b.HeaderLength()..]);
            && bank.start == start && tab[..] == bank.cells
            && (outside <==> o.OutOfBounds?) && (!outside ==> Ready(b, o, h, request, rsp[..], length))
  {
    hide Join, ReadWords, Words, Ready;
    var k := b.HeaderLength();
    outside, length := false, 0;
    var address, nb := Join(req[k + 1], req[k + 2]), Join(req[k + 3], req[k + 4]);
    var addressWrite, nbWrite := Join(req[k + 5], req[k + 6]), Join(req[k + 7], req[k + 8]);
    if nbWrite < 1 || MAX_WR_WRITE_REGISTERS < nbWrite || nb < 1 || MAX_WR_READ_REGISTERS < nb || req[k + 9] != nbWrite * 2 {
      length := ReplyException(b, h, req[k], ILLEGAL_DATA_VALUE, rsp, request);
    } else if address - start < 0 || address - start + nb > tab.Length || addressWrite - start + nbWrite > tab.Length {
      length := ReplyException(b, h, req[k], ILLEGAL_DATA_ADDRESS, rsp, request);
    } else if addressWrite < start {
      outside := true;
    } else {
      SetRegisters(tab, addressWrite - start, nbWrite, req, k + 10);
      assert req[k..][10..] == req[k + 10..];
      length := ReportRegisters(b, h, start, tab, address, nb, req[k], rsp, request);
    }
  }

  method ReplySlaveId(b: Backend, h: Header, id: seq<Byte>, req: array<Byte>, rsp: array<Byte>, ghost request: seq<Byte>) returns (length: nat)
    requires req.Length >= b.HeaderLength() + MAX_PDU_LENGTH && rsp.Length == 260 && rsp != req && h.protocol == 0 && |id| <= 240
    modifies rsp
    ensures Ready(b, Answer([req[b.HeaderLength()], 2 + |id|, SLAVE_ID, 0xFF] + id), h, request, rsp[..], length)
  {
    length := BuildResponseBasis(b, h.tid, h.slave, req[b.HeaderLength()], rsp);
    var byteCountPos := length;
    rsp[length + 1], rsp[length + 2] := SLAVE_ID, 0xFF;
    length := length + 3;
    forall i | 0 <= i < |id| {
      rsp[length + i] := id[i];
    }
    assert rsp[length..length + |id|] == id;
    length := length + |id|;
    rsp[byteCountPos] := length - byteCountPos - 1;
  }

  // ---------- the switch ----------

  datatype Status = Built | NotImplemented | OutsideTable

  function StatusOf(o: Outcome): Status {
    match o
    case Unimplemented => NotImplemented
    case OutOfBounds => OutsideTable
    case _ => Built
  }

  method Dispatch(b: Backend, h: Header, m: Mapping, id: seq<Byte>, req: array<Byte>, length0: nat, rsp: array<Byte>)
    returns (status: Status, length: nat)
    requires h.protocol == 0 && |id| <= 240 && m.Separate()
    requires req.Length == 260 && rsp.Length == 260 && length0 <= 260 && rsp != req
    requires rsp != m.tabBits && rsp != m.tabInputBits && req != m.tabBits
    requires (m.tabRegisters as object) != rsp && (m.tabRegisters as object) != req && (m.tabInputRegisters as object) != rsp
    requires (m.tabRegisters as object) != m.tabBits && (m.tabRegisters as object) != m.tabInputBits && (m.tabInputRegisters as object) != m.tabBits
    modifies rsp, m.tabBits, m.tabRegisters
    ensures var (t, o) := Serve(old(m.Tables()), req[b.HeaderLength()..], id);
            && m.Tables() == t && status == StatusOf(o)
            && (status == Built ==> Ready(b, o, h, req[..length0], rsp[..], length))
    ensures req[..] == old(req[..])
  {
    hide Ready, ServeReadBits, ServeReadRegisters, ServeWriteBit, ServeWriteRegister, ServeWriteBits, ServeWriteRegisters;
    hide ServeMaskWrite, ServeWriteAndRead;
    var function_ := req[b.HeaderLength()];
    ghost var request := req[..length0];
    status, length := Built, 0;
    if function_ == READ_COILS {
      length := ReplyReadBits(b, h, m.startBits, m.tabBits, req, rsp, request);
    } else if function_ == READ_DISCRETE_INPUTS {
      length := ReplyReadBits(b, h, m.startInputBits, m.tabInputBits, req, rsp, request);
    } else if function_ == READ_HOLDING_REGISTERS {
      length := ReplyReadRegisters(b, h, m.startRegisters, m.tabRegisters, req, rsp, request);
    } else if function_ == READ_INPUT_REGISTERS {
      length := ReplyReadRegisters(b, h, m.startInputRegisters, m.tabInputRegisters, req, rsp, request);
    } else if function_ == WRITE_SINGLE_COIL {
      length := ReplyWriteBit(b, h, m.startBits, m.tabBits, req, length0, rsp);
    } else if function_ == WRITE_SINGLE_REGISTER {
      length := ReplyWriteRegister(b, h, m.startRegisters, m.tabRegisters, req, length0, rsp);
    } else if function_ == WRITE_MULTIPLE_COILS {
      length := ReplyWriteBits(b, h, m.startBits, m.tabBits, req, rsp, request);
    } else if function_ == WRITE_MULTIPLE_REGISTERS {
      length := ReplyWriteRegisters(b, h, m.startRegisters, m.tabRegisters, req, rsp, request);
    } else if function_ == REPORT_SLAVE_ID {
      length := ReplySlaveId(b, h, id, req, rsp, request);
    } else if function_ == READ_EXCEPTION_STATUS {
      status := NotImplemented;
    } else if function_ == MASK_WRITE_REGISTER {
      length := ReplyMaskWrite(b, h, m.startRegisters, m.tabRegisters, req, length0, rsp);
    } else if function_ == WRITE_AND_READ_REGISTERS {
      var outside;
      outside, length := ReplyWriteAndRead(b, h, m.startRegisters, m.tabRegisters, req, rsp, request);
      status := if outside then OutsideTable else Built;
    } else {
      length := ReplyException(b, h, function_, ILLEGAL_FUNCTION, rsp, request);
    }
  }

  /** A request in a buffer, arrays apart from one another: what modbus_reply can be called on. */
  ghost predicate Callable(b: Backend, m: Mapping, id: seq<Byte>, req: array<Byte>, reqLength: nat, rsp: array<Byte>) {
    && b.HeaderLength() + 1 + b.ChecksumLength() <= reqLength <= b.MaxAduLength()
    && |id| <= 240 && req.Length == 260 && rsp.Length == 260
    && rsp != req && rsp != m.tabBits && rsp != m.tabInputBits && req != m.tabBits && m.Separate()
    && (m.tabRegisters as object) != rsp && (m.tabRegisters as object) != req && (m.tabInputRegisters as object) != rsp
    && (m.tabRegisters as object) != m.tabBits && (m.tabRegisters as object) != m.tabInputBits
    && (m.tabInputRegisters as object) != m.tabBits
  }

  /**
   modbus_reply: the tables become what `Serve` makes of them and the bytes sent are the frame of
   its answer; nothing is sent to a broadcast.
   */
  method Reply(b: Backend, m: Mapping, id: seq<Byte>, req: array<Byte>, reqLength: nat, rsp: array<Byte>)
    returns (status: Status, sent: nat)
    requires Callable(b, m, id, req, reqLength, rsp)
    modifies rsp, m.tabBits, m.tabRegisters
    ensures match ReplyTurn(b, old(m.Tables()), id, req[..], req[..reqLength], [])
      case OutOfTable => status == OutsideTable
      case Turned(t, bytes, _) => status != OutsideTable && m.Tables() == t && sent <= rsp.Length && rsp[..sent] == bytes
      case Waiting => false
  {
    hide Serve, Ready, RtuCrc.CrcBytes, ReplyTurn, Frame;
    var k := b.HeaderLength();
    var slave := req[k - 1];
    var tid := if b.Tcp? then Join(req[0], req[1]) else 0;
    var length0 := reqLength - b.ChecksumLength();
    ghost var buffer, t := req[..], m.Tables();
    ghost var o := Serve(t, buffer[k..], id).1;
    TurnOfBuffer(b, t, id, buffer, reqLength);
    assert buffer[k..] == req[k..] && buffer[..reqLength] == req[..reqLength] && buffer[..length0] == req[..length0];
    var length;
    status, length := Dispatch(b, Header(tid, 0, slave), m, id, req, length0, rsp);
    sent := 0;
    if status == Built && slave != BROADCAST {
      ghost var h := ReadyToSend(b, tid, slave, o, buffer, reqLength, rsp[..], length);
      assert rsp[..][k..length] == rsp[k..length];
      sent := SendMsgPre(b, rsp, length, h);
    }
  }

  /** A turn in terms of the whole buffer. */
  lemma TurnOfBuffer(b: Backend, t: Tables, id: seq<Byte>, buffer: seq<Byte>, n: nat)
    requires b.HeaderLength() + 1 + b.ChecksumLength() <= n <= b.MaxAduLength() && |id| <= 240 && |buffer| == 260
    ensures var k := b.HeaderLength();
            var (t', o) := Serve(t, buffer[k..], id);
            var header := HeaderOf(b, buffer[..n]);
            && header.slave == buffer[k - 1]
            && (o.Answer? ==> |o.pdu| <= MAX_PDU_LENGTH)
            && ReplyTurn(b, t, id, buffer, buffer[..n], []) ==
                 if o.OutOfBounds? then OutOfTable
                 else if header.slave == BROADCAST || o.Unimplemented? then Turned(t', [], [])
                 else if o.Echo? then Turned(t', Frame(b, header, buffer[k..n - b.ChecksumLength()]), [])
                 else Turned(t', Frame(b, header.(protocol := 0), o.pdu), [])
  {
    hide Serve, Frame;
    var k := b.HeaderLength();
    assert Fill(buffer[..n], buffer) == buffer;
    AnswerBound(t, buffer[k..], id);
    assert buffer[..n][k..n - b.ChecksumLength()] == buffer[k..n - b.ChecksumLength()];
  }

  /** What is in the reply buffer is a whole message but for its checksum or length field. */
  lemma ReadyToSend(b: Backend, tid: Word, slave: Byte, o: Outcome, req: seq<Byte>, reqLength: nat, rsp: seq<Byte>, length: nat) returns (h: Header)
    requires b.HeaderLength() + 1 + b.ChecksumLength() <= reqLength <= b.MaxAduLength() && |req| == 260 == |rsp|
    requires slave == req[b.HeaderLength() - 1] && (b.Tcp? ==> tid == Join(req[0], req[1]))
    requires o.Answer? || o.Echo?
    requires Ready(b, o, Header(tid, 0, slave), req[..reqLength - b.ChecksumLength()], rsp, length)
    ensures h.slave == slave && HeaderSet(b, rsp, h)
    ensures b.HeaderLength() <= length <= b.HeaderLength() + MAX_PDU_LENGTH
    ensures o.Answer? ==> rsp[b.HeaderLength()..length] == o.pdu && |o.pdu| <= MAX_PDU_LENGTH
    ensures o.Answer? ==> Frame(b, h, o.pdu) == Frame(b, HeaderOf(b, req[..reqLength]).(protocol := 0), o.pdu)
    ensures o.Echo? ==> rsp[b.HeaderLength()..length] == req[b.HeaderLength()..reqLength - b.ChecksumLength()]
    ensures o.Echo? ==> Frame(b, h, rsp[b.HeaderLength()..length]) == Frame(b, HeaderOf(b, req[..reqLength]), rsp[b.HeaderLength()..length])
  {
    hide RtuCrc.CrcBytes, Join, Hi, Lo;
    h := if o.Answer? then Header(tid, 0, slave) else HeaderOf(b, req[..reqLength]);
    if o.Echo? && b.Tcp? {
      EchoedHeader(req, rsp, length);
    }
  }

  lemma EchoedHeader(req: seq<Byte>, rsp: seq<Byte>, n: nat)
    requires 7 <= n <= |req| && n <= |rsp| && rsp[..n] == req[..n]
    ensures HeaderSet(Tcp, rsp, HeaderOf(Tcp, req[..n]))
  {
    hide Join, Hi, Lo;
    assert forall i :: 0 <= i < 7 ==> rsp[i] == rsp[..n][i] == req[..n][i] == req[i];
    SplitJoin(req[0], req[1]);
    SplitJoin(req[2], req[3]);
    assert rsp[..4] == [req[0], req[1], req[2], req[3]];
  }
}
