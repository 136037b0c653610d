/**
 _modbus_receive_msg: three reading steps over a port that hands out bytes in pieces of any
 size. The contract does not mention the pieces: only the stream decides what is received.
 */
module ModbusReceiver {
  import opened Bits
  import opened ModbusFrames
  import RtuCrc

  /** The receiving end of a lossless byte stream. */
  class Port {
    var pending: seq<Byte>

    constructor (stream: seq<Byte>)
      ensures pending == stream
    {
      pending := stream;
    }

    /** recv: some bytes, at least one unless none are left, at most `max`. */
    method Recv(msg: array<Byte>, at: nat, max: nat) returns (rc: nat)
      requires 0 < max && at + max <= msg.Length
      modifies this, msg
      ensures rc <= max && rc <= |old(pending)| && (rc == 0 <==> old(pending) == [])
      ensures pending == old(pending)[rc..]
      ensures msg[..] == old(msg[..at]) + old(pending)[..rc] + old(msg[at + rc..])
    {
      if pending == [] {
        return 0;
      }
      var n: nat :| 1 <= n <= max && n <= |pending|;
      forall i | 0 <= i < n {
        msg[at + i] := pending[i];
      }
      assert msg[at..at + n] == pending[..n];
      pending := pending[n..];
      rc := n;
    }
  }

  datatype Step = Function | Meta | Data {
    function StepsLeft(): nat {
      match this
      case Function => 2
      case Meta => 1
      case Data => 0
    }
  }

  datatype Outcome = Length(n: nat) | TooMuchData | ConnectionReset

  /** Where a step ends in the stream. */
  function Target(b: Backend, s: seq<Byte>, t: MessageType, step: Step): nat
    requires Reached(b, s, |s|, t, step)
  {
    var h := b.HeaderLength();
    match step
    case Function => h + 1
    case Meta => h + 1 + MetaLength(s[h], t)
    case Data => h + 1 + MetaLength(s[h], t) + DataLength(s[h..], t) + b.ChecksumLength()
  }

  /** Enough of the stream has been read to have started a step. */
  predicate Reached(b: Backend, s: seq<Byte>, n: nat, t: MessageType, step: Step) {
    && n <= |s|
    && (step != Function ==> n >= b.HeaderLength() + 1)
    && (step == Data ==> n >= b.HeaderLength() + 1 + MetaLength(s[b.HeaderLength()], t))
  }

  datatype Plan = Read(step: Step, more: nat) | Refuse

  /** The switch at the end of a step: what to read next, given the bytes so far. */
  function Advance(b: Backend, prefix: seq<Byte>, t: MessageType, step: Step): Plan
    requires step != Data && Reached(b, prefix, |prefix|, t, step) && |prefix| == Target(b, prefix, t, step)
  {
    var h := b.HeaderLength();
    if step == Function && MetaLength(prefix[h], t) != 0 then Read(Meta, MetaLength(prefix[h], t))
    else
      var more := DataLength(prefix[h..], t) + b.ChecksumLength();
      if |prefix| + more > b.MaxAduLength() then Refuse else Read(Data, more)
  }

  lemma AdvanceFollowsStream(b: Backend, s: seq<Byte>, n: nat, t: MessageType, step: Step)
    requires step != Data && Reached(b, s, n, t, step) && n == Target(b, s, t, step)
    ensures Reached(b, s[..n], n, t, step) && n == Target(b, s[..n], t, step)
    ensures match Advance(b, s[..n], t, step)
      case Refuse => Receive(b, s, t) == TooLong(s[n..])
      case Read(next, more) =>
        && Reached(b, s, n, t, next) && n + more == Target(b, s, t, next) <= b.MaxAduLength()
        && next.StepsLeft() < step.StepsLeft() && (next != Data ==> more > 0)
  {
    if n >= b.HeaderLength() + 1 + MetaLength(s[b.HeaderLength()], t) { SameDataLength(b, s, n, t, step); }
  }

  /** The bytes up to the end of the meta step decide the data length. */
  lemma SameDataLength(b: Backend, s: seq<Byte>, n: nat, t: MessageType, step: Step)
    requires step != Data && Reached(b, s, n, t, step) && n == Target(b, s, t, step)
    requires n >= b.HeaderLength() + 1 + MetaLength(s[b.HeaderLength()], t)
    ensures DataLength(s[..n][b.HeaderLength()..], t) == DataLength(s[b.HeaderLength()..], t)
  {
    var h := b.HeaderLength();
    assert s[..n][h..] == s[h..n];
    assert forall i :: 0 <= i < n - h ==> s[h..n][i] == s[h..][i];
  }

  lemma StarvedWithin(b: Backend, s: seq<Byte>, t: MessageType, step: Step)
    requires Reached(b, s, |s|, t, step) && |s| < Target(b, s, t, step)
    requires step == Data ==> Target(b, s, t, step) <= b.MaxAduLength()
    ensures Receive(b, s, t) == Starved
  {
  }

  lemma WholeAtEnd(b: Backend, s: seq<Byte>, n: nat, t: MessageType)
    requires Reached(b, s, n, t, Data) && n == Target(b, s, t, Data) <= b.MaxAduLength()
    ensures Receive(b, s, t) == Whole(s[..n], s[n..])
  {
  }

  /** The buffer holds the first `n` bytes of the stream, and behind them what it held before. */
  ghost predicate Filled(content: seq<Byte>, s: seq<Byte>, before: seq<Byte>, n: nat) {
    n <= |s| && n <= |before| && content == s[..n] + before[n..]
  }

  lemma FilledPrefix(content: seq<Byte>, s: seq<Byte>, before: seq<Byte>, n: nat)
    requires Filled(content, s, before, n)
    ensures n <= |s| && n <= |content| == |before| && content[..n] == s[..n]
  {
  }

  /** One recv into the buffer behind what is already there. */
  method ReadMore(port: Port, msg: array<Byte>, msgLength: nat, max: nat, ghost s: seq<Byte>, ghost before: seq<Byte>) returns (rc: nat)
    requires 0 < max && msgLength + max <= msg.Length
    requires Filled(msg[..], s, before, msgLength) && port.pending == s[msgLength..]
    modifies port, msg
    ensures rc <= max && (rc == 0 ==> msgLength == |s|)
    ensures Filled(msg[..], s, before, msgLength + rc) && port.pending == s[msgLength + rc..]
  {
    rc := port.Recv(msg, msgLength, max);
    Prepend(s, before, msgLength, rc);
  }

  lemma Prepend(s: seq<Byte>, before: seq<Byte>, n: nat, rc: nat)
    requires n + rc <= |s| && n + rc <= |before|
    ensures (s[..n] + before[n..])[..n] + s[n..][..rc] + (s[..n] + before[n..])[n + rc..] == s[..n + rc] + before[n + rc..]
    ensures s[n..][rc..] == s[n + rc..]
  {
  }

  /** `n` bytes are in the buffer and `more` are still to be read in this step. */
  ghost predicate Reading(b: Backend, s: seq<Byte>, n: nat, more: nat, t: MessageType, step: Step) {
    && Reached(b, s, n, t, step) && n + more == Target(b, s, t, step) <= b.MaxAduLength()
    && (step != Data ==> more > 0)
  }

  /** A step has been read to its end. */
  ghost predicate StepRead(b: Backend, s: seq<Byte>, n: nat, t: MessageType, step: Step) {
    step != Data && Reached(b, s, n, t, step) && n == Target(b, s, t, step)
  }

  lemma ReadingStart(b: Backend, s: seq<Byte>, t: MessageType)
    ensures Reading(b, s, 0, b.HeaderLength() + 1, t, Function) && b.HeaderLength() + 1 <= b.MaxAduLength()
  {
  }

  lemma ReadingOn(b: Backend, s: seq<Byte>, n: nat, more: nat, rc: nat, t: MessageType, step: Step)
    requires Reading(b, s, n, more, t, step) && rc <= more && n + rc <= |s|
    ensures n + more <= b.MaxAduLength()
    ensures if rc == more && step != Data then StepRead(b, s, n + rc, t, step)
      else Reading(b, s, n + rc, more - rc, t, step)
  {
    hide MetaLength, DataLength;
  }

  lemma ReadingEnds(b: Backend, s: seq<Byte>, n: nat, more: nat, t: MessageType, step: Step)
    requires Reading(b, s, n, more, t, step)
    ensures n <= |s| && n + more <= b.MaxAduLength()
    ensures more > 0 && n == |s| ==> Receive(b, s, t) == Starved
    ensures more == 0 ==> Receive(b, s, t) == Whole(s[..n], s[n..])
  {
    hide MetaLength, DataLength;
    if more == 0 { WholeAtEnd(b, s, n, t); } else if n == |s| { StarvedWithin(b, s, t, step); }
  }

  /** The switch at the end of a step, on the buffer. */
  method NextStep(b: Backend, msg: array<Byte>, msgLength: nat, t: MessageType, step: Step, ghost s: seq<Byte>) returns (plan: Plan)
    requires msgLength <= msg.Length && msgLength <= |s| && msg[..][..msgLength] == s[..msgLength]
    requires StepRead(b, s, msgLength, t, step)
    ensures match plan
      case Refuse => Receive(b, s, t) == TooLong(s[msgLength..])
      case Read(next, more) =>
        Reading(b, s, msgLength, more, t, next) && next.StepsLeft() < step.StepsLeft()
  {
    hide Advance, MetaLength, DataLength, Receive, Target, Reached;
    AdvanceFollowsStream(b, s, msgLength, t, step);
    assert msg[..msgLength] == msg[..][..msgLength];
    plan := Advance(b, msg[..msgLength], t, step);
  }

  /** Takes the first frame off the port, however its bytes arrive, and nothing more. */
  method ReceiveMessage(b: Backend, port: Port, msg: array<Byte>, t: MessageType) returns (r: Outcome)
    requires msg.Length >= b.MaxAduLength()
    modifies port, msg
    ensures match Receive(b, old(port.pending), t)
      case Whole(frame, rest) =>
        r == Length(|frame|) && port.pending == rest && |frame| <= msg.Length && msg[..] == frame + old(msg[..])[|frame|..]
      case TooLong(rest) => r == TooMuchData && port.pending == rest
      case Starved => r == ConnectionReset && port.pending == []
  {
    hide *;
    ghost var s, before := port.pending, msg[..];
    ReadingStart(b, s, t);
    FilledStart(s, before);
    var step := Function;
    var msgLength: nat, lengthToRead: nat := 0, b.HeaderLength() + 1;
    while lengthToRead != 0
      invariant Reading(b, s, msgLength, lengthToRead, t, step)
      invariant msgLength <= |s| && port.pending == s[msgLength..] && Filled(msg[..], s, before, msgLength)
      decreases step.StepsLeft(), lengthToRead
    {
      ReadingEnds(b, s, msgLength, lengthToRead, t, step);
      var rc := ReadMore(port, msg, msgLength, lengthToRead, s, before);
      FilledPrefix(msg[..], s, before, msgLength + rc);
      ReadingOn(b, s, msgLength, lengthToRead, rc, t, step);
      if rc == 0 {
        return ConnectionReset;
      }
      msgLength := msgLength + rc;
      lengthToRead := lengthToRead - rc;
      if lengthToRead == 0 && step != Data {
        var plan := NextStep(b, msg, msgLength, t, step, s);
        match plan
        case Refuse =>
          return TooMuchData;
        case Read(next, more) =>
          step, lengthToRead := next, more;
      }
    }
    ReadingEnds(b, s, msgLength, 0, t, step);
    FilledWhole(msg[..], s, before, msgLength);
    r := Length(msgLength);
  }

  lemma FilledStart(s: seq<Byte>, before: seq<Byte>)
    ensures Filled(before, s, before, 0) && s[0..] == s
  {
  }

  lemma FilledWhole(content: seq<Byte>, s: seq<Byte>, before: seq<Byte>, n: nat)
    requires Filled(content, s, before, n)
    ensures n <= |s| && n <= |before| && content == s[..n] + before[n..] && |s[..n]| == n
  {
  }
}
