/**
 The serial framing between OpenPLC and an Arduino board (core/hardware_layers/arduino.cpp).
 A packet travels as 'S', its bytes, 'E', where a payload byte equal to one of the three
 control bytes is preceded by a backslash. `ParseBuffer` decodes a buffer into itself.
 */
module SerialFraming {
  import opened Bits

  const START: Byte := 0x53
  const END: Byte := 0x45
  const ESCAPE: Byte := 0x5C

  predicate Special(b: Byte) {
    b == START || b == END || b == ESCAPE
  }

  // ---------- encoding ----------

  function Escaped(payload: seq<Byte>): seq<Byte> {
    if payload == [] then []
    else
      var b := payload[|payload| - 1];
      Escaped(payload[..|payload| - 1]) + (if Special(b) then [ESCAPE, b] else [b])
  }

  function Encoded(payload: seq<Byte>): seq<Byte> {
    [START] + Escaped(payload) + [END]
  }

  /** In bytes: 53 and 45 around the payload, in which 53, 45 and 5C are doubled up with a 5C before them. */
  lemma EncodedBytes(a: seq<Byte>, b: Byte)
    ensures Encoded([]) == [0x53, 0x45]
    ensures |Encoded(a)| >= 2 && Encoded(a)[0] == 0x53 && Encoded(a)[|Encoded(a)| - 1] == 0x45
    ensures Encoded(a + [b]) == Encoded(a)[..|Encoded(a)| - 1] + (if b in {0x53, 0x45, 0x5C} then [0x5C, b] else [b]) + [0x45]
  {
    assert (a + [b])[..|a + [b]| - 1] == a;
    assert Encoded(a)[..|Encoded(a)| - 1] == [START] + Escaped(a);
  }

  function Specials(payload: seq<Byte>): nat {
    if payload == [] then 0
    else Specials(payload[..|payload| - 1]) + (if Special(payload[|payload| - 1]) then 1 else 0)
  }

  /** The 100 bytes the sender reserves are enough for its 26-byte packet. */
  lemma {:induction false} EncodedLength(payload: seq<Byte>)
    ensures |Encoded(payload)| == |payload| + Specials(payload) + 2
    ensures Specials(payload) <= |payload|
  {
    if payload != [] { EncodedLength(payload[..|payload| - 1]); }
  }

  /** `sent` stands at the front of the buffer, and behind it what was there before. */
  ghost predicate Holding(content: seq<Byte>, sent: seq<Byte>, before: seq<Byte>) {
    |sent| <= |before| && content == sent + before[|sent|..]
  }

  method Emit(outgoing: array<Byte>, j: nat, b: Byte, ghost before: seq<Byte>, ghost sent: seq<Byte>)
    requires j == |sent| < outgoing.Length && Holding(outgoing[..], sent, before)
    modifies outgoing
    ensures Holding(outgoing[..], sent + [b], before)
  {
    outgoing[j] := b;
    assert outgoing[..] == (sent + before[j..])[j := b];
  }

  lemma EscapedSnoc(temp: seq<Byte>, i: nat)
    requires i < |temp|
    ensures [START] + Escaped(temp[..i + 1]) ==
            ([START] + Escaped(temp[..i])) + (if Special(temp[i]) then [ESCAPE, temp[i]] else [temp[i]])
    ensures |Escaped(temp[..i])| <= 2 * i
  {
    assert temp[..i + 1][..i] == temp[..i];
    EncodedLength(temp[..i]);
  }

  lemma NothingSent(packet: seq<Byte>, before: seq<Byte>)
    ensures Holding(before, [], before)
    ensures [] + [START] == [START] + Escaped(packet[..0])
  {
  }

  lemma Regroup(s: seq<Byte>, a: Byte, b: Byte)
    ensures (s + [a]) + [b] == s + [a, b]
  {
  }

  lemma AllSent(packet: seq<Byte>, content: seq<Byte>, before: seq<Byte>)
    requires Holding(content, ([START] + Escaped(packet[..|packet|])) + [END], before)
    ensures |Encoded(packet)| <= |content| && content == Encoded(packet) + before[|Encoded(packet)|..]
  {
    assert packet[..|packet|] == packet;
    assert ([START] + Escaped(packet)) + [END] == Encoded(packet);
  }

  /** The encoding loop of sendPacket */
  method Encode(temp: array<Byte>, outgoing: array<Byte>) returns (j: nat)
    requires temp != outgoing && 2 * temp.Length + 2 <= outgoing.Length
    modifies outgoing
    ensures j == |Encoded(temp[..])| <= outgoing.Length
    ensures outgoing[..] == Encoded(temp[..]) + old(outgoing[j..])
  {
    hide Escaped, Holding, Encoded;
    ghost var packet: seq<Byte>, before: seq<Byte>, sent: seq<Byte> := temp[..], outgoing[..], [];
    NothingSent(packet, before);
    Emit(outgoing, 0, START, before, sent);
    sent := sent + [START];
    j := 1;
    for i := 0 to temp.Length
      invariant j == |sent| <= 2 * i + 1
      invariant Holding(outgoing[..], sent, before)
      invariant temp[..] == packet && sent == [START] + Escaped(packet[..i])
    {
      EscapedSnoc(packet, i);
      if temp[i] != START && temp[i] != END && temp[i] != ESCAPE {
        Emit(outgoing, j, temp[i], before, sent);
        j := j + 1;
        sent := sent + [temp[i]];
      } else {
        Regroup(sent, ESCAPE, temp[i]);
        Emit(outgoing, j, ESCAPE, before, sent);
        j := j + 1;
        Emit(outgoing, j, temp[i], before, sent + [ESCAPE]);
        j := j + 1;
        sent := sent + [ESCAPE, temp[i]];
      }
    }
    Emit(outgoing, j, END, before, sent);
    j := j + 1;
    AllSent(packet, outgoing[..], before);
    EncodedLength(packet);
    LengthSent(packet);
  }

  lemma LengthSent(packet: seq<Byte>)
    ensures |Encoded(packet)| == |[START] + Escaped(packet[..|packet|])| + 1
  {
    assert packet[..|packet|] == packet;
  }

  // ---------- decoding into a buffer of its own ----------

  datatype Phase =
    | Idle
    | Collecting(payload: seq<Byte>)
    | Escaping(payload: seq<Byte>)
  {
    function Partial(): seq<Byte> {
      if Idle? then [] else payload
    }
  }

  datatype Packet = NoPacket | Packet(payload: seq<Byte>)

  /** `out` is what has been stored so far in an output buffer that starts empty. */
  datatype Reader = Reader(phase: Phase, packet: Packet, out: seq<Byte>)

  const FRESH := Reader(Idle, NoPacket, [])

  function Place(out: seq<Byte>, at: nat, b: Byte): seq<Byte> {
    if at < |out| then out[at := b] else out + [b]
  }

  function Collect(r: Reader, b: Byte): Reader {
    var payload := r.phase.Partial();
    Reader(Collecting(payload + [b]), r.packet, Place(r.out, |payload|, b))
  }

  function Accept(r: Reader, b: Byte): Reader {
    match r.phase
    case Idle =>
      if b == START then r.(phase := Collecting([])) else r
    case Collecting(payload) =>
      if b == ESCAPE then r.(phase := Escaping(payload))
      else if b == END then r.(phase := Idle, packet := Packet(payload))
      else if b == START then r.(phase := Collecting([]), packet := NoPacket)
      else Collect(r, b)
    case Escaping(_) =>
      if Special(b) then Collect(r, b) else r.(phase := Idle, packet := NoPacket)
  }

  function Resume(r: Reader, bytes: seq<Byte>): Reader {
    if bytes == [] then r
    else Accept(Resume(r, bytes[..|bytes| - 1]), bytes[|bytes| - 1])
  }

  function Read(bytes: seq<Byte>): Reader {
    Resume(FRESH, bytes)
  }

  lemma {:induction false} ResumeConcat(r: Reader, u: seq<Byte>, v: seq<Byte>)
    ensures Resume(r, u + v) == Resume(Resume(r, u), v)
  {
    if v == [] {
      assert u + v == u;
    } else {
      assert (u + v)[..|u + v| - 1] == u + v[..|v| - 1];
      ResumeConcat(r, u, v[..|v| - 1]);
    }
  }

  lemma ResumeOne(r: Reader, b: Byte)
    ensures Resume(r, [b]) == Accept(r, b)
  {
    assert [b][..0] == [];
  }

  lemma ResumeTwo(r: Reader, a: Byte, b: Byte)
    ensures Resume(r, [a, b]) == Accept(Accept(r, a), b)
  {
    hide Accept;
    assert [a, b][..1] == [a];
    ResumeOne(r, a);
  }

  lemma CollectAppends(r: Reader, b: Byte)
    ensures Collect(r, b).phase == Collecting(r.phase.Partial() + [b]) && Collect(r, b).packet == r.packet
  {
  }

  /** What the output buffer holds: the open frame, and behind it what is left of the packet. */
  ghost predicate Holds(r: Reader) {
    var partial := r.phase.Partial();
    && partial <= r.out
    && (r.packet.Packet? ==>
          |r.packet.payload| <= |r.out|
          && forall k :: |partial| <= k < |r.packet.payload| ==> r.out[k] == r.packet.payload[k])
  }

  /** Writing never overtakes reading, so one buffer can serve as input and output. */
  lemma {:induction false} ReadHolds(bytes: seq<Byte>)
    ensures Holds(Read(bytes))
    ensures |Read(bytes).phase.Partial()| <= |Read(bytes).out| <= |bytes|
    ensures Read(bytes).phase.Escaping? ==> |Read(bytes).phase.payload| < |bytes|
  {
    if bytes != [] {
      ReadHolds(bytes[..|bytes| - 1]);
    }
  }

  // ---------- decoding in place ----------

  /** The buffer with the output laid over the front of the input. */
  function InPlace(input: seq<Byte>, out: seq<Byte>): seq<Byte>
    requires |out| <= |input|
  {
    out + input[|out|..]
  }

  lemma PlaceInPlace(input: seq<Byte>, out: seq<Byte>, at: nat, b: Byte)
    requires at <= |out| <= |input| && at < |input|
    ensures |out| <= |Place(out, at, b)| <= |input| && at < |Place(out, at, b)|
    ensures |InPlace(input, out)| == |input|
    ensures InPlace(input, out)[at := b] == InPlace(input, Place(out, at, b))
  {
  }

  lemma NothingRead(input: seq<Byte>)
    ensures Read(input[..0]) == FRESH && InPlace(input, []) == input
  {
  }

  lemma ReadOne(input: seq<Byte>, i: nat)
    requires i < |input|
    ensures Read(input[..i + 1]) == Accept(Read(input[..i]), input[i])
    ensures |Read(input[..i]).phase.Partial()| <= |Read(input[..i]).out| <= i
    ensures |Read(input[..i + 1]).phase.Partial()| <= |Read(input[..i + 1]).out| <= i + 1
    ensures InPlace(input, Read(input[..i]).out)[i] == input[i]
  {
    ReadHolds(input[..i]);
    ReadHolds(input[..i + 1]);
    assert input[..i + 1][..i] == input[..i];
  }

  /** parseBuffer */
  method ParseBuffer(buf: array<Byte>, bufSize: nat) returns (packetReceived: bool)
    requires bufSize <= buf.Length
    modifies buf
    ensures packetReceived == Read(old(buf[..bufSize])).packet.Packet?
    ensures |Read(old(buf[..bufSize])).out| <= bufSize
    ensures buf[..] == InPlace(old(buf[..]), Read(old(buf[..bufSize])).out)
  {
    hide Resume, Holds, InPlace, Place;
    ghost var input := buf[..];
    var beginReceiving := false;
    var escapeReceived := false;
    packetReceived := false;
    var bufferIndex := 0;
    NothingRead(input);
    for i := 0 to bufSize
      invariant var r := Read(input[..i]);
        && beginReceiving == !r.phase.Idle?
        && escapeReceived == r.phase.Escaping?
        && packetReceived == r.packet.Packet?
        && bufferIndex == |r.phase.Partial()| <= |r.out| <= i
        && buf[..] == InPlace(input, r.out)
    {
      ghost var r := Read(input[..i]);
      ReadOne(input, i);
      PlaceInPlace(input, r.out, bufferIndex, input[i]);
      assert buf[i] == buf[..][i];
      if !beginReceiving && buf[i] == START {
        beginReceiving := true;
      } else if beginReceiving {
        if !escapeReceived {
          if buf[i] == ESCAPE {
            escapeReceived := true;
          } else if buf[i] == END {
            escapeReceived := false;
            beginReceiving := false;
            packetReceived := true;
            bufferIndex := 0;
          } else if buf[i] == START {
            escapeReceived := false;
            beginReceiving := true;
            packetReceived := false;
            bufferIndex := 0;
          } else {
            buf[bufferIndex] := buf[i];
            bufferIndex := bufferIndex + 1;
          }
        } else if escapeReceived {
          if buf[i] == ESCAPE || buf[i] == END || buf[i] == START {
            buf[bufferIndex] := buf[i];
            bufferIndex := bufferIndex + 1;
            escapeReceived := false;
          } else {
            escapeReceived := false;
            beginReceiving := false;
            packetReceived := false;
            bufferIndex := 0;
          }
        }
      }
    }
  }

  // ---------- what is delivered ----------

  /** Escaped payload bytes are appended to the frame being collected. */
  lemma {:induction false} EscapedIsCollected(r: Reader, payload: seq<Byte>)
    requires r.phase.Collecting?
    ensures Resume(r, Escaped(payload)).phase == Collecting(r.phase.payload + payload)
    ensures Resume(r, Escaped(payload)).packet == r.packet
  {
    if payload == [] {
      assert r.phase.payload + payload == r.phase.payload;
    } else {
      var n := |payload| - 1;
      EscapedIsCollected(r, payload[..n]);
      var mid := Resume(r, Escaped(payload[..n]));
      var tail := if Special(payload[n]) then [ESCAPE, payload[n]] else [payload[n]];
      ResumeConcat(r, Escaped(payload[..n]), tail);
      hide Collect, Resume;
      if Special(payload[n]) {
        ResumeTwo(mid, ESCAPE, payload[n]);
      } else {
        ResumeOne(mid, payload[n]);
      }
      CollectAppends(mid, payload[n]);
      CollectAppends(mid.(phase := Escaping(mid.phase.payload)), payload[n]);
      assert (r.phase.payload + payload[..n]) + [payload[n]] == r.phase.payload + payload;
    }
  }

  predicate StartFree(noise: seq<Byte>) {
    START !in noise
  }

  lemma {:induction false} NoiseIsSkipped(r: Reader, noise: seq<Byte>)
    requires r.phase.Idle? && StartFree(noise)
    ensures Resume(r, noise) == r
  {
    if noise != [] {
      assert StartFree(noise[..|noise| - 1]);
      NoiseIsSkipped(r, noise[..|noise| - 1]);
    }
  }

  predicate EscapePending(before: seq<Byte>) {
    Read(before).phase.Escaping?
  }

  /** The packet the buffer ends up with when a frame follows `before` and no start byte follows it. */
  function Delivered(before: seq<Byte>, payload: seq<Byte>): seq<Byte> {
    if EscapePending(before) then Read(before).phase.payload + [START] + payload else payload
  }

  /**
   Whatever came before, the frame is reported; the packet at the front of the buffer is the
   payload, unless an escape was pending, when the frame's start byte is taken for data.
   */
  lemma FrameIsDelivered(before: seq<Byte>, payload: seq<Byte>, after: seq<Byte>)
    requires StartFree(after)
    ensures var r := Read(before + Encoded(payload) + after);
      && r.packet == Packet(Delivered(before, payload))
      && Delivered(before, payload) <= r.out
    ensures Delivered(before, payload) == payload <==> !EscapePending(before)
  {
    var r0 := Read(before);
    var r1 := Accept(r0, START);
    var escaped := Escaped(payload);
    var r2 := Resume(r1, escaped);
    EscapedIsCollected(r1, payload);
    assert [START] + escaped + [END] == [START] + (escaped + [END]);
    ResumeConcat(FRESH, before, Encoded(payload));
    ResumeConcat(r0, [START], escaped + [END]);
    assert Resume(r0, [START]) == r1;
    ResumeConcat(r1, escaped, [END]);
    assert Resume(r2, [END]) == Accept(r2, END);
    NoiseIsSkipped(Read(before + Encoded(payload)), after);
    ResumeConcat(FRESH, before + Encoded(payload), after);
    ReadHolds(before + Encoded(payload) + after);
    if EscapePending(before) {
      assert |Delivered(before, payload)| > |payload|;
    } else {
      assert [] + payload == payload;
    }
  }

  /** parseBuffer undoes sendPacket, with start-free noise on either side. */
  lemma RoundTrip(before: seq<Byte>, payload: seq<Byte>, after: seq<Byte>)
    requires StartFree(before) && StartFree(after)
    ensures var input := before + Encoded(payload) + after;
      && Read(input).packet.Packet?
      && |payload| <= |Read(input).out| <= |input|
      && InPlace(input, Read(input).out)[..|payload|] == payload
  {
    NoiseIsSkipped(FRESH, before);
    FrameIsDelivered(before, payload, after);
    ReadHolds(before + Encoded(payload) + after);
  }

  /** Of several frames in one buffer the last one stands. */
  lemma LastFrameStands(before: seq<Byte>, first: seq<Byte>, noise: seq<Byte>, second: seq<Byte>, after: seq<Byte>)
    requires StartFree(noise) && StartFree(after)
    ensures Read(before + Encoded(first) + noise + Encoded(second) + after).packet == Packet(second)
  {
    FrameIsDelivered(before, first, noise);
    var u := before + Encoded(first) + noise;
    FrameClosed(before, first, noise);
    FrameIsDelivered(u, second, after);
  }

  lemma FrameClosed(before: seq<Byte>, payload: seq<Byte>, after: seq<Byte>)
    requires StartFree(after)
    ensures Read(before + Encoded(payload) + after).phase == Idle
  {
    var u := before + Encoded(payload);
    assert u[..|u| - 1] == before + ([START] + Escaped(payload));
    var r := Accept(Read(before), START);
    ResumeConcat(FRESH, before, [START] + Escaped(payload));
    ResumeConcat(Read(before), [START], Escaped(payload));
    assert Resume(Read(before), [START]) == r;
    EscapedIsCollected(r, payload);
    NoiseIsSkipped(Read(u), after);
    ResumeConcat(FRESH, u, after);
  }

  // ---------- frames cut short ----------

  /**
   A frame cut anywhere leaves an escape pending exactly when the cut falls between a
   backslash and the byte it protects.
   */
  lemma {:induction false} CutInsideEscape(payload: seq<Byte>, cut: nat)
    requires cut <= |Encoded(payload)|
    ensures EscapePending(Encoded(payload)[..cut]) <==>
      exists j :: 0 <= j < |payload| && Special(payload[j]) && cut == |Escaped(payload[..j])| + 2
  {
    var prefix := Encoded(payload)[..cut];
    if cut == 0 {
      assert prefix == [];
    } else if cut == |Encoded(payload)| {
      FrameClosed([], payload, []);
      assert [] + Encoded(payload) + [] == prefix;
      forall j | 0 <= j < |payload| && Special(payload[j]) ensures cut != |Escaped(payload[..j])| + 2 {
        EscapedPrefix(payload, j);
      }
    } else {
      assert prefix == [START] + Escaped(payload)[..cut - 1];
      ResumeConcat(FRESH, [START], Escaped(payload)[..cut - 1]);
      assert Resume(FRESH, [START]) == Accept(FRESH, START);
      CutInsideEscaped(Accept(FRESH, START), payload, cut - 1);
    }
  }

  lemma {:induction false} CutInsideEscaped(r: Reader, payload: seq<Byte>, cut: nat)
    requires r.phase.Collecting? && cut <= |Escaped(payload)|
    ensures Resume(r, Escaped(payload)[..cut]).phase.Escaping? <==>
      exists j :: 0 <= j < |payload| && Special(payload[j]) && cut == |Escaped(payload[..j])| + 1
  {
    if payload == [] {
      assert Escaped(payload)[..cut] == [];
    } else {
      var n := |payload| - 1;
      var front := payload[..n];
      var start := |Escaped(front)|;
      forall j | 0 <= j < n ensures front[..j] == payload[..j] {}
      if cut <= start {
        assert Escaped(payload)[..cut] == Escaped(front)[..cut];
        CutInsideEscaped(r, front, cut);
      } else {
        forall j | 0 <= j < n && Special(payload[j]) ensures cut != |Escaped(payload[..j])| + 1 {
          EscapedPrefix(front, j);
        }
        EscapedIsCollected(r, front);
        if Special(payload[n]) && cut == start + 1 {
          assert Escaped(payload)[..cut] == Escaped(front) + [ESCAPE];
          ResumeConcat(r, Escaped(front), [ESCAPE]);
          assert payload[..n] == front;
        } else {
          assert Escaped(payload)[..cut] == Escaped(payload);
          EscapedIsCollected(r, payload);
        }
      }
    }
  }

  lemma {:induction false} EscapedPrefix(payload: seq<Byte>, j: nat)
    requires j < |payload|
    ensures |Escaped(payload[..j])| + (if Special(payload[j]) then 2 else 1) <= |Escaped(payload)|
  {
    var n := |payload| - 1;
    if j < n {
      EscapedPrefix(payload[..n], j);
      assert payload[..n][..j] == payload[..j];
    }
  }

  // ---------- a start byte behind the frame ----------

  /** Whether the first bytes of two sequences agree as far as both go. */
  ghost predicate Agree(a: seq<Byte>, b: seq<Byte>) {
    forall k :: 0 <= k < |a| && k < |b| ==> a[k] == b[k]
  }

  /**
   For any input at all that leaves a packet reported, the packet stands at the front of the
   buffer exactly when the frame left open behind it agrees with it as far as both go.
   */
  lemma FrontIsPacketIff(bytes: seq<Byte>)
    requires Read(bytes).packet.Packet?
    ensures var r := Read(bytes);
      && |r.packet.payload| <= |r.out| <= |bytes|
      && (InPlace(bytes, r.out)[..|r.packet.payload|] == r.packet.payload <==> Agree(r.phase.Partial(), r.packet.payload))
  {
    ReadHolds(bytes);
    var r := Read(bytes);
    var p, q := r.packet.payload, r.phase.Partial();
    var front := InPlace(bytes, r.out)[..|p|];
    hide Resume;
    forall k | 0 <= k < |p| ensures front[k] == if k < |q| then q[k] else p[k] {
      assert front[k] == r.out[k];
    }
  }

  predicate Plain(bytes: seq<Byte>) {
    forall k :: 0 <= k < |bytes| ==> !Special(bytes[k])
  }

  lemma {:induction false} PlainIsItsEncoding(bytes: seq<Byte>)
    requires Plain(bytes)
    ensures Escaped(bytes) == bytes
  {
    if bytes != [] {
      PlainIsItsEncoding(bytes[..|bytes| - 1]);
      assert bytes == bytes[..|bytes| - 1] + [bytes[|bytes| - 1]];
    }
  }

  /**
   A start byte and plain bytes behind a frame leave the result true; they are stored over the
   packet, which survives exactly when they agree with it as far as both go.
   */
  lemma TrailingBytesAgreeIff(payload: seq<Byte>, tail: seq<Byte>)
    requires Plain(tail)
    ensures var input := Encoded(payload) + ([START] + tail);
      && Read(input).packet == Packet(payload)
      && |payload| <= |Read(input).out| <= |input|
      && (InPlace(input, Read(input).out)[..|payload|] == payload <==> Agree(tail, payload))
  {
    var u := Encoded(payload);
    var input := u + ([START] + tail);
    FrameIsDelivered([], payload, []);
    FrameClosed([], payload, []);
    assert [] + u + [] == u;
    ResumeConcat(FRESH, u, [START] + tail);
    ResumeConcat(Read(u), [START], tail);
    ResumeOne(Read(u), START);
    PlainIsItsEncoding(tail);
    EscapedIsCollected(Accept(Read(u), START), tail);
    assert [] + tail == tail;
    FrontIsPacketIff(input);
  }

  /** The smallest case: one byte that differs from the first of the payload. */
  lemma TrailingStartDamages(payload: seq<Byte>, x: Byte)
    requires payload != [] && !Special(x) && x != payload[0]
    ensures var input := Encoded(payload) + [START, x];
      && Read(input).packet == Packet(payload)
      && |payload| <= |Read(input).out| <= |input|
      && InPlace(input, Read(input).out)[..|payload|] != payload
      && InPlace(input, Read(input).out)[0] == x
  {
    var input := Encoded(payload) + [START, x];
    assert [START] + [x] == [START, x];
    TrailingBytesAgreeIff(payload, [x]);
    assert !Agree([x], payload);
    var u := Encoded(payload);
    FrameClosed([], payload, []);
    assert [] + u + [] == u;
    ResumeConcat(FRESH, u, [START, x]);
    ResumeTwo(Read(u), START, x);
    ReadHolds(input);
  }

  // ---------- what takes a packet away again ----------

  /** An escape before a byte that needs none ends the frame and drops a packet received before. */
  lemma BadEscapeDrops(before: seq<Byte>, x: Byte, after: seq<Byte>)
    requires EscapePending(before) && x !in {0x53, 0x45, 0x5C} && StartFree(after)
    ensures Read(before + [x] + after).packet == NoPacket && Read(before + [x] + after).phase == Idle
  {
    ResumeConcat(FRESH, before, [x]);
    ResumeOne(Read(before), x);
    ResumeConcat(FRESH, before + [x], after);
    NoiseIsSkipped(Read(before + [x]), after);
  }

  lemma {:induction false} NothingEnds(r: Reader, tail: seq<Byte>)
    requires r.packet == NoPacket && 0x45 !in tail
    ensures Resume(r, tail).packet == NoPacket
  {
    if tail != [] {
      var n := |tail| - 1;
      assert 0x45 !in tail[..n] && tail[n] != 0x45;
      NothingEnds(r, tail[..n]);
    }
  }

  /**
   A start byte inside a frame drops a packet received before it, for good unless another end byte
   follows; a start byte outside any frame keeps it.
   */
  lemma RestartDrops(before: seq<Byte>, tail: seq<Byte>)
    requires Read(before).phase.Collecting? && 0x45 !in tail
    ensures Read(before + [0x53] + tail).packet == NoPacket
  {
    ResumeConcat(FRESH, before, [0x53]);
    ResumeOne(Read(before), 0x53);
    ResumeConcat(FRESH, before + [0x53], tail);
    NothingEnds(Read(before + [0x53]), tail);
  }
}
