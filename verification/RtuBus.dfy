/**
 A slave on a shared serial line hears the requests to the other slaves and their replies.
 One flag, flipped by _modbus_rtu_receive, keeps it in step with the frames.
 */
module RtuBus {
  import opened Bits
  import opened ModbusFrames
  import opened ModbusReceiver
  import RtuCrc

  datatype Delivery = Delivered(frame: seq<Byte>) | Skipped | Failed

  /** What one _modbus_rtu_receive leaves: the flag, what the caller gets, and the rest of the stream. */
  datatype Heard = Heard(ignoring: bool, delivery: Delivery, rest: seq<Byte>)

  function Listen(slave: Byte, ignoring: bool, s: seq<Byte>): Heard {
    if ignoring then
      match Receive(Rtu, s, Confirmation)
      case Whole(_, rest) => Heard(false, Skipped, rest)
      case TooLong(rest) => Heard(false, Skipped, rest)
      case Starved => Heard(false, Skipped, [])
    else
      match Receive(Rtu, s, Indication)
      case Whole(frame, rest) =>
        (match RtuCrc.CheckIntegrity(slave, frame)
         case Ignored => Heard(true, Skipped, rest)
         case BadCrc => Heard(false, Failed, rest)
         case Accepted(_) => Heard(false, Delivered(frame), rest))
      case TooLong(rest) => Heard(false, Failed, rest)
      case Starved => Heard(false, Failed, [])
  }

  /** The RTU context of a slave: its address and modbus_rtu_t's confirmation_to_ignore. */
  class Slave {
    const address: Byte
    var confirmationToIgnore: bool

    constructor (address: Byte)
      ensures this.address == address && !confirmationToIgnore
    {
      this.address := address;
      confirmationToIgnore := false;
    }

    /** _modbus_rtu_receive: the length of a request for this slave, 0 to skip, -1 on failure. */
    method Receive(port: Port, req: array<Byte>) returns (rc: int)
      requires req.Length >= Rtu.MaxAduLength()
      modifies this, port, req
      ensures var heard := Listen(address, old(confirmationToIgnore), old(port.pending));
              && confirmationToIgnore == heard.ignoring && port.pending == heard.rest
              && match heard.delivery
                 case Delivered(frame) => rc == |frame| <= req.Length && req[..rc] == frame
                 case Skipped => rc == 0
                 case Failed => rc == -1
    {
      hide ModbusFrames.Receive, RtuCrc.CheckIntegrity;
      if confirmationToIgnore {
        var ignored := ReceiveMessage(Rtu, port, req, Confirmation);
        confirmationToIgnore := false;
        rc := 0;
      } else {
        ghost var s := port.pending;
        var got := ReceiveMessage(Rtu, port, req, Indication);
        if got.Length? {
          assert ModbusFrames.Receive(Rtu, s, Indication).Whole?;
          FrameLength(Rtu, s, Indication);
          assert req[..got.n] == ModbusFrames.Receive(Rtu, s, Indication).frame;
          var check := RtuCrc.CheckFrame(address, req, got.n);
          if check.Accepted? { AcceptedLength(address, req[..got.n]); }
          rc := if check.Accepted? then check.length else if check.Ignored? then 0 else -1;
        } else {
          rc := -1;
        }
        if rc == 0 {
          confirmationToIgnore := true;
        }
      }
    }
  }

  lemma FrameLength(b: Backend, s: seq<Byte>, t: MessageType)
    requires Receive(b, s, t).Whole?
    ensures |Receive(b, s, t).frame| >= b.HeaderLength() + 1 + b.ChecksumLength()
  {
  }

  lemma AcceptedLength(slave: int, frame: seq<Byte>)
    requires |frame| >= 2 && RtuCrc.CheckIntegrity(slave, frame).Accepted?
    ensures RtuCrc.CheckIntegrity(slave, frame).length == |frame|
  {
    hide RtuCrc.Crc16;
  }

  // ---------- traffic on the line ----------

  /** A request to some slave and, if that is another one, its one reply. */
  datatype Traffic = Traffic(slave: Byte, request: seq<Byte>, reply: seq<Byte>) {
    predicate Valid() {
      SelfDelimiting(request, Indication) && SelfDelimiting(reply, Confirmation)
    }

    function RequestFrame(): seq<Byte>
      requires Valid()
    {
      Frame(Rtu, Header(0, 0, slave), request)
    }

    predicate For(own: Byte) {
      slave == own || slave == BROADCAST
    }

    /** What slave `own` hears of it. */
    function HeardBy(own: Byte): seq<Byte>
      requires Valid()
    {
      if For(own) then RequestFrame() else RequestFrame() + Frame(Rtu, Header(0, 0, slave), reply)
    }
  }

  predicate AllValid(line: seq<Traffic>) {
    forall i :: 0 <= i < |line| ==> line[i].Valid()
  }

  function Bytes(own: Byte, line: seq<Traffic>): seq<Byte>
    requires AllValid(line)
  {
    if line == [] then [] else line[0].HeardBy(own) + Bytes(own, line[1..])
  }

  function RequestsFor(own: Byte, line: seq<Traffic>): seq<seq<Byte>>
    requires AllValid(line)
  {
    if line == [] then []
    else (if line[0].For(own) then [line[0].RequestFrame()] else []) + RequestsFor(own, line[1..])
  }

  /** Receive calls until the line is used up: one for an own request, two for another's. */
  function CallsFor(own: Byte, line: seq<Traffic>): nat {
    if line == [] then 0 else (if line[0].For(own) then 1 else 2) + CallsFor(own, line[1..])
  }

  datatype Session = Session(ignoring: bool, requests: seq<seq<Byte>>, failures: nat, rest: seq<Byte>)

  function Attend(own: Byte, ignoring: bool, s: seq<Byte>, calls: nat): Session
    decreases calls
  {
    if calls == 0 then Session(ignoring, [], 0, s)
    else
      var heard := Listen(own, ignoring, s);
      var later := Attend(own, heard.ignoring, heard.rest, calls - 1);
      match heard.delivery
      case Delivered(frame) => later.(requests := [frame] + later.requests)
      case Skipped => later
      case Failed => later.(failures := later.failures + 1)
  }

  lemma OwnRequestIsDelivered(own: Byte, x: Traffic, rest: seq<Byte>)
    requires x.Valid() && x.For(own)
    ensures Listen(own, false, x.HeardBy(own) + rest) == Heard(false, Delivered(x.RequestFrame()), rest)
  {
    hide RtuCrc.CrcBytes, RtuCrc.CheckIntegrity, Receive;
    FrameIsReceived(Rtu, Header(0, 0, x.slave), x.request, Indication, rest);
    RtuCrc.FreshFrameAccepted(own, [x.slave] + x.request);
  }

  lemma OtherRequestIsSkipped(own: Byte, x: Traffic, rest: seq<Byte>)
    requires x.Valid() && !x.For(own)
    ensures var reply := Frame(Rtu, Header(0, 0, x.slave), x.reply);
            && Listen(own, false, x.HeardBy(own) + rest) == Heard(true, Skipped, reply + rest)
            && Listen(own, true, reply + rest) == Heard(false, Skipped, rest)
  {
    hide RtuCrc.CrcBytes, Receive;
    var reply := Frame(Rtu, Header(0, 0, x.slave), x.reply);
    assert x.HeardBy(own) + rest == x.RequestFrame() + (reply + rest);
    FrameIsReceived(Rtu, Header(0, 0, x.slave), x.request, Indication, reply + rest);
    FrameIsReceived(Rtu, Header(0, 0, x.slave), x.reply, Confirmation, rest);
  }

  /** One exchange on the line, from step to step. */
  lemma AttendOne(own: Byte, x: Traffic, rest: seq<Byte>, calls: nat)
    requires x.Valid()
    ensures var later := Attend(own, false, rest, calls);
            Attend(own, false, x.HeardBy(own) + rest, (if x.For(own) then 1 else 2) + calls)
              == if x.For(own) then later.(requests := [x.RequestFrame()] + later.requests) else later
  {
    hide Listen, x.HeardBy, x.RequestFrame;
    if x.For(own) {
      OwnRequestIsDelivered(own, x, rest);
    } else {
      OtherRequestIsSkipped(own, x, rest);
      var reply := Frame(Rtu, Header(0, 0, x.slave), x.reply);
      assert Attend(own, true, reply + rest, 1 + calls) == Attend(own, false, rest, calls);
    }
  }

  /**
   If every request to another slave is followed by exactly one reply, the slave stays in step for
   the whole run: it delivers exactly the requests for itself and the broadcasts, in order.
   */
  lemma {:induction false} SlaveStaysInStep(own: Byte, line: seq<Traffic>, rest: seq<Byte>)
    requires AllValid(line)
    ensures Attend(own, false, Bytes(own, line) + rest, CallsFor(own, line))
      == Session(false, RequestsFor(own, line), 0, rest)
    decreases |line|
  {
    hide *;
    if line == [] {
      SilentLine(own, rest);
    } else {
      LineCons(own, line, rest);
      SlaveStaysInStep(own, line[1..], rest);
      AttendOne(own, line[0], Bytes(own, line[1..]) + rest, CallsFor(own, line[1..]));
    }
  }

  lemma SilentLine(own: Byte, rest: seq<Byte>)
    ensures Attend(own, false, Bytes(own, []) + rest, CallsFor(own, [])) == Session(false, RequestsFor(own, []), 0, rest)
  {
    assert Bytes(own, []) + rest == rest;
  }

  lemma LineCons(own: Byte, line: seq<Traffic>, rest: seq<Byte>)
    requires AllValid(line) && line != []
    ensures AllValid(line[1..]) && line[0].Valid()
    ensures Bytes(own, line) + rest == line[0].HeardBy(own) + (Bytes(own, line[1..]) + rest)
    ensures CallsFor(own, line) == (if line[0].For(own) then 1 else 2) + CallsFor(own, line[1..])
    ensures RequestsFor(own, line) ==
      (if line[0].For(own) then [line[0].RequestFrame()] else []) + RequestsFor(own, line[1..])
    ensures [] + RequestsFor(own, line[1..]) == RequestsFor(own, line[1..])
  {
    hide SelfDelimiting, Frame;
  }

  /**
   The reply is needed: after a request that its slave leaves unanswered, the next receive delivers
   nothing, whatever comes.
   */
  lemma NextIsNeverDelivered(own: Byte, silent: Traffic, s: seq<Byte>)
    requires silent.Valid() && !silent.For(own)
    ensures var session := Attend(own, false, silent.RequestFrame() + s, 2);
      !session.ignoring && session.requests == [] && session.failures == 0
  {
    hide RtuCrc.CrcBytes, Receive;
    FrameIsReceived(Rtu, Header(0, 0, silent.slave), silent.request, Indication, s);
    assert Listen(own, false, silent.RequestFrame() + s) == Heard(true, Skipped, s);
    var rest := Listen(own, true, s).rest;
    assert Attend(own, true, s, 1) == Attend(own, false, rest, 0);
  }

  /**
   If that is a request with more behind it, it is taken off the line as it was sent exactly when it
   announces the same length as a reply would; otherwise the slave is out of step.
   */
  lemma IgnoredWholeIff(own: Byte, next: Traffic, rest: seq<Byte>)
    requires next.Valid() && rest != []
    ensures Listen(own, true, next.RequestFrame() + rest).rest == rest <==> SelfDelimiting(next.request, Confirmation)
  {
    var frame := next.RequestFrame();
    var s := frame + rest;
    if SelfDelimiting(next.request, Confirmation) {
      hide RtuCrc.CrcBytes, Receive;
      FrameIsReceived(Rtu, Header(0, 0, next.slave), next.request, Confirmation, rest);
    } else {
      OtherEnd(next, rest);
    }
  }

  lemma OtherEnd(next: Traffic, rest: seq<Byte>)
    requires next.Valid() && !SelfDelimiting(next.request, Confirmation)
    ensures match Receive(Rtu, next.RequestFrame() + rest, Confirmation)
      case Whole(_, left) => left != rest
      case TooLong(left) => left != rest
      case Starved => true
  {
    hide RtuCrc.CrcBytes;
    var req, s := next.request, next.RequestFrame() + rest;
    assert |next.RequestFrame()| == |req| + 3 && s[1] == req[0];
    assert |req| >= 2 ==> s[2] == req[1];
    assert s[1..][0] == s[1] && s[1..][1] == s[2];
    assert MetaLength(req[0], Confirmation) <= |req|;
  }

  /** A request that does is taken for the missing reply and lost. */
  lemma UnansweredRequestCostsTheNext(own: Byte, silent: Traffic, next: Traffic, rest: seq<Byte>)
    requires silent.Valid() && !silent.For(own) && next.Valid() && next.For(own)
    requires SelfDelimiting(next.request, Confirmation)
    ensures Attend(own, false, silent.RequestFrame() + next.RequestFrame() + rest, 2) == Session(false, [], 0, rest)
  {
    hide RtuCrc.CrcBytes, Receive;
    var s := next.RequestFrame() + rest;
    assert silent.RequestFrame() + next.RequestFrame() + rest == silent.RequestFrame() + s;
    FrameIsReceived(Rtu, Header(0, 0, silent.slave), silent.request, Indication, s);
    FrameIsReceived(Rtu, Header(0, 0, next.slave), next.request, Confirmation, rest);
    assert Attend(own, true, s, 1) == Session(false, [], 0, rest) by {
      assert Attend(own, false, rest, 0) == Session(false, [], 0, rest);
    }
  }

  /** Such requests exist: a single write is as long as its reply. */
  lemma SingleWriteLooksLikeItsReply(r: Request)
    requires r.WriteBit? || r.WriteRegister? || r.MaskWrite?
    ensures SelfDelimiting(r.Encode(), Indication) && SelfDelimiting(r.Encode(), Confirmation)
  {
    RequestIsSelfDelimiting(r);
  }

  // ---------- damaged frames ----------

  /** A request as it may arrive: its end is announced by the unit, and the last two bytes are anything. */
  function Arrived(address: Byte, pdu: seq<Byte>, low: Byte, high: Byte): seq<Byte> {
    [address] + pdu + [low, high]
  }

  lemma ArrivedIsReceived(address: Byte, pdu: seq<Byte>, low: Byte, high: Byte, rest: seq<Byte>)
    requires SelfDelimiting(pdu, Indication)
    ensures Receive(Rtu, Arrived(address, pdu, low, high) + rest, Indication) == Whole(Arrived(address, pdu, low, high), rest)
  {
    var frame := Arrived(address, pdu, low, high);
    var s := frame + rest;
    assert s[1] == pdu[0];
    forall i | 0 <= i < |pdu| ensures s[1..][i] == pdu[i] {
    }
    assert s[..|frame|] == frame && s[|frame|..] == rest;
  }

  /**
   A frame for this slave, or a broadcast, is delivered exactly when the CRC register ends at zero
   over all of it; otherwise the receive fails. Either way the flag stays clear.
   */
  lemma OwnFrameIsChecked(own: Byte, address: Byte, pdu: seq<Byte>, low: Byte, high: Byte, rest: seq<Byte>)
    requires SelfDelimiting(pdu, Indication) && address in {own, 0}
    ensures var frame := Arrived(address, pdu, low, high);
      Listen(own, false, frame + rest) ==
        Heard(false, if RtuCrc.Fold(0xFFFF, frame) == 0 then Delivered(frame) else Failed, rest)
  {
    ArrivedIsReceived(address, pdu, low, high, rest);
    RtuCrc.AcceptedIffResidueZero(own, Arrived(address, pdu, low, high));
    hide Receive, RtuCrc.CheckIntegrity, RtuCrc.Fold, SelfDelimiting;
  }

  /** A frame for another slave sets the flag whatever its check bytes are. */
  lemma ForeignFrameIsNotChecked(own: Byte, address: Byte, pdu: seq<Byte>, low: Byte, high: Byte, rest: seq<Byte>)
    requires SelfDelimiting(pdu, Indication) && address !in {own, 0}
    ensures Listen(own, false, Arrived(address, pdu, low, high) + rest) == Heard(true, Skipped, rest)
  {
    ArrivedIsReceived(address, pdu, low, high, rest);
    hide Receive, RtuCrc.Crc16, SelfDelimiting;
  }

  /** A damaged frame for this slave costs one failed receive and nothing of what follows on the line. */
  lemma DamageIsContained(
      own: Byte, address: Byte, pdu: seq<Byte>, low: Byte, high: Byte, line: seq<Traffic>, rest: seq<Byte>)
    requires SelfDelimiting(pdu, Indication) && address in {own, 0}
    requires RtuCrc.Fold(0xFFFF, Arrived(address, pdu, low, high)) != 0
    requires AllValid(line)
    ensures Attend(own, false, Arrived(address, pdu, low, high) + Bytes(own, line) + rest, 1 + CallsFor(own, line))
      == Session(false, RequestsFor(own, line), 1, rest)
  {
    hide Listen, Bytes, RequestsFor, CallsFor, SelfDelimiting, RtuCrc.Fold, Arrived, AllValid;
    var frame, s := Arrived(address, pdu, low, high), Bytes(own, line) + rest;
    assert frame + Bytes(own, line) + rest == frame + s;
    OwnFrameIsChecked(own, address, pdu, low, high, s);
    SlaveStaysInStep(own, line, rest);
  }
}
