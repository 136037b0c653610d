/**
 The OpenPLC Modbus/TCP server (core/modbus.cpp): handlers that turn the request in a buffer
 into the reply in the same buffer, and change the PLC's image tables.
 */
module PlcModbus {
  import opened Bits
  import opened PlcWords
  import opened PlcMemory

  const ILLEGAL_FUNCTION: Byte := 1
  const ILLEGAL_DATA_ADDRESS: Byte := 2
  const ILLEGAL_DATA_VALUE: Byte := 3

  // ---------- replies ----------

  function WithHighBit(b: Byte): Byte {
    ShlEight();
    OrBound(b, 0x80, 8);
    Or(b, 0x80)
  }

  function ErrorReply(mem: seq<Byte>, code: Byte): seq<Byte>
    requires |mem| >= 264
  {
    mem[..4] + [0, 3, mem[6], WithHighBit(mem[7]), code]
  }

  function DataReply(mem: seq<Byte>, data: seq<Byte>): seq<Byte>
    requires |mem| >= 264 && |data| <= 255
  {
    mem[..4] + [Hi(|data| + 3), Lo(|data| + 3), mem[6], mem[7], |data|] + data
  }

  function EchoReply(mem: seq<Byte>): seq<Byte>
    requires |mem| >= 264
  {
    mem[..4] + [0, 6] + mem[6..12]
  }

  function Start(mem: seq<Byte>): Word
    requires |mem| >= 264
  {
    Join(mem[8], mem[9])
  }

  function Second(mem: seq<Byte>): Word
    requires |mem| >= 264
  {
    Join(mem[10], mem[11])
  }

  // ---------- coils ----------

  predicate On(cell: Cell<Byte>) {
    cell.Mapped? && cell.value != 0
  }

  function CoilByte(table: seq<Cell<Byte>>, p: nat): (b: Byte)
    requires p + 8 <= |table|
  {
    var bits := seq(8, j requires 0 <= j < 8 => On(table[p + j]));
    FromBitsIsByte(bits);
    FromBits(bits)
  }

  lemma CoilByteBit(table: seq<Cell<Byte>>, p: nat, k: nat)
    requires p + 8 <= |table| && k < 8
    ensures Bit(CoilByte(table, p), k) == On(table[p + k])
  {
    FromBitsBit(seq(8, j requires 0 <= j < 8 => On(table[p + j])), k);
  }

  lemma ByteFromBits(a: Byte, b: Byte)
    requires forall k: nat :: k < 8 ==> Bit(a, k) == Bit(b, k)
    ensures a == b
  {
    ShlEight();
    SameBits(8, a, b);
  }

  function CoilBytes(table: seq<Cell<Byte>>, start: nat, n: nat): (bytes: seq<Byte>)
    requires start + 8 * n <= |table|
    ensures |bytes| == n
  {
    if n == 0 then [] else CoilBytes(table, start, n - 1) + [CoilByte(table, start + 8 * (n - 1))]
  }

  lemma NoCoils(table: seq<Cell<Byte>>, start: nat)
    ensures start <= |table| ==> CoilBytes(table, start, 0) == []
  {
  }

  lemma CoilsSnoc(table: seq<Cell<Byte>>, start: nat, i: nat)
    requires start + 8 * (i + 1) <= |table|
    ensures CoilBytes(table, start, i + 1) == CoilBytes(table, start, i) + [CoilByte(table, start + i * 8)]
  {
  }

  lemma {:induction false} CoilBytesAt(table: seq<Cell<Byte>>, start: nat, n: nat, i: nat)
    requires start + 8 * n <= |table| && i < n
    ensures CoilBytes(table, start, n)[i] == CoilByte(table, start + 8 * i)
  {
    if i < n - 1 { CoilBytesAt(table, start, n - 1, i); }
  }

  /** The first `bits` bits of `data` written to the coils from `start` on. */
  function StoreBits(table: seq<Cell<Byte>>, start: nat, data: seq<Byte>, bits: nat): (r: seq<Cell<Byte>>)
    requires bits <= 8 * |data|
    ensures SameShape(table, r)
  {
    seq(|table|, p requires 0 <= p < |table| =>
      if start <= p < start + bits && p < MAX_COILS && table[p].Mapped?
      then Mapped(if Bit(data[(p - start) / 8], (p - start) % 8) then 1 else 0)
      else table[p])
  }

  lemma StoreNoBits(table: seq<Cell<Byte>>, start: nat, data: seq<Byte>)
    ensures StoreBits(table, start, data, 0) == table
  {
  }

  lemma StoreNextBit(table: seq<Cell<Byte>>, start: nat, data: seq<Byte>, bits: nat)
    requires bits < 8 * |data| && |table| == 8192
    ensures var p := start + bits; var now := StoreBits(table, start, data, bits);
      StoreBits(table, start, data, bits + 1) ==
        if p < MAX_COILS && now[p].Mapped?
        then now[p := Mapped(if Bit(data[bits / 8], bits % 8) then 1 else 0)]
        else now
  {
    assert (start + bits - start) / 8 == bits / 8;
  }

  // ---------- what a request is answered with ----------

  datatype Response = Response(image: Image, reply: seq<Byte>)

  function AnswerReadBits(table: seq<Cell<Byte>>, mem: seq<Byte>, size: nat): seq<Byte>
    requires |mem| >= 264 && |table| == 8192
  {
    var n := ByteCount(Second(mem));
    if size < 12 then ErrorReply(mem, ILLEGAL_DATA_VALUE)
    else if n > 255 || (n > 0 && Start(mem) + 8 * n > MAX_COILS) then ErrorReply(mem, ILLEGAL_DATA_ADDRESS)
    else if n == 0 then DataReply(mem, [])
    else DataReply(mem, CoilBytes(table, Start(mem), n))
  }

  /** No address in the block is 1024, which lies outside every table. */
  predicate InBounds(start: nat, count: nat) {
    !(start <= MIN_16B < start + count)
  }

  function HoldingBytes(m: Image, start: nat, n: nat): (bytes: seq<Byte>)
    requires m.Valid() && InBounds(start, n) && start + n <= END_64B
    ensures |bytes| == 2 * n
  {
    if n == 0 then []
    else
      var (hi, lo) := Fetched(m, start + n - 1);
      HoldingBytes(m, start, n - 1) + [hi, lo]
  }

  lemma NoRegisters(m: Image, start: nat)
    requires m.Valid()
    ensures start <= END_64B ==> HoldingBytes(m, start, 0) == []
  {
  }

  lemma HoldingSnoc(m: Image, start: nat, i: nat)
    requires m.Valid() && InBounds(start, i + 1) && start + i + 1 <= END_64B
    ensures HoldingBytes(m, start, i + 1) ==
      HoldingBytes(m, start, i) + [Fetched(m, start + i).0, Fetched(m, start + i).1]
  {
  }

  lemma NoInputs(m: Image, start: nat)
    requires m.Valid()
    ensures start <= 1024 ==> InputBytes(m, start, 0) == []
  {
  }

  lemma InputSnoc(m: Image, start: nat, i: nat)
    requires m.Valid() && start + i + 1 <= 1024
    ensures var cell := m.intInput[start + i];
      InputBytes(m, start, i + 1) ==
        InputBytes(m, start, i) + (if cell.Mapped? then [Hi(cell.value), Lo(cell.value)] else [0, 0])
  {
  }

  lemma {:induction false} HoldingBytesAt(m: Image, start: nat, n: nat, i: nat)
    requires m.Valid() && InBounds(start, n) && start + n <= END_64B && i < n
    ensures (HoldingBytes(m, start, n)[2 * i], HoldingBytes(m, start, n)[2 * i + 1]) == Fetched(m, start + i)
  {
    if i < n - 1 { HoldingBytesAt(m, start, n - 1, i); }
  }

  function InputBytes(m: Image, start: nat, n: nat): (bytes: seq<Byte>)
    requires m.Valid() && start + n <= 1024
    ensures |bytes| == 2 * n
  {
    if n == 0 then []
    else
      var cell := m.intInput[start + n - 1];
      InputBytes(m, start, n - 1) + (if cell.Mapped? then [Hi(cell.value), Lo(cell.value)] else [0, 0])
  }

  function AnswerReadHolding(m: Image, mem: seq<Byte>, size: nat): seq<Byte>
    requires |mem| >= 264 && m.Valid()
    requires size >= 12 && 2 * Second(mem) <= 255 ==> InBounds(Start(mem), Second(mem))
  {
    var n := Second(mem);
    if size < 12 then ErrorReply(mem, ILLEGAL_DATA_VALUE)
    else if 2 * n > 255 || (n > 0 && Start(mem) + n > END_64B) then ErrorReply(mem, ILLEGAL_DATA_ADDRESS)
    else if n == 0 then DataReply(mem, [])
    else DataReply(mem, HoldingBytes(m, Start(mem), n))
  }

  function AnswerReadInputs(m: Image, mem: seq<Byte>, size: nat): seq<Byte>
    requires |mem| >= 264 && m.Valid()
  {
    var n := Second(mem);
    if size < 12 then ErrorReply(mem, ILLEGAL_DATA_VALUE)
    else if 2 * n > 255 || (n > 0 && Start(mem) + n > 1024) then ErrorReply(mem, ILLEGAL_DATA_ADDRESS)
    else if n == 0 then DataReply(mem, [])
    else DataReply(mem, InputBytes(m, Start(mem), n))
  }

  function AnswerWriteCoil(m: Image, mem: seq<Byte>, size: nat): Response
    requires |mem| >= 264 && m.Valid()
  {
    if size < 12 then Response(m, ErrorReply(mem, ILLEGAL_DATA_VALUE))
    else if Start(mem) >= MAX_COILS then Response(m, ErrorReply(mem, ILLEGAL_DATA_ADDRESS))
    else
      var p, value: Byte := Start(mem), if Second(mem) > 0 then 1 else 0;
      Response(
        if m.boolOutput[p].Mapped? then m.(boolOutput := m.boolOutput[p := Mapped(value)]) else m,
        EchoReply(mem))
  }

  function AnswerWriteRegister(m: Image, mem: seq<Byte>, size: nat): Response
    requires |mem| >= 264 && m.Valid()
    requires size >= 12 ==> Start(mem) != MIN_16B
  {
    if size < 12 then Response(m, ErrorReply(mem, ILLEGAL_DATA_VALUE))
    else if Start(mem) >= END_64B then Response(m, ErrorReply(mem, ILLEGAL_DATA_ADDRESS))
    else Response(Store(m, Start(mem), Second(mem)), EchoReply(mem))
  }

  /** A write is refused before anything is changed unless its byte count and length fit. */
  predicate Complete(mem: seq<Byte>, size: nat, bytes: nat)
    requires |mem| >= 264
  {
    size >= 12 && size >= 13 + bytes && mem[12] == bytes
  }

  function AnswerWriteCoils(m: Image, mem: seq<Byte>, size: nat): Response
    requires |mem| >= 264 && size <= |mem| && m.Valid()
  {
    var n := ByteCount(Second(mem));
    if !Complete(mem, size, n) then Response(m, ErrorReply(mem, ILLEGAL_DATA_VALUE))
    else
      Response(
        m.(boolOutput := StoreBits(m.boolOutput, Start(mem), mem[13..13 + n], 8 * n)),
        if n > 0 && Start(mem) + 8 * n > MAX_COILS then ErrorReply(mem, ILLEGAL_DATA_ADDRESS) else EchoReply(mem))
  }

  /** The words of a block write, two bytes each from byte 13 on. */
  function WordAt(mem: seq<Byte>, i: nat): Word
    requires 14 + 2 * i < |mem|
  {
    Join(mem[13 + 2 * i], mem[14 + 2 * i])
  }

  predicate DefiniteBlock(m: Image, start: nat, count: nat)
    requires m.Valid()
  {
    forall p :: start <= p < start + count && p < END_64B ==> Definite(m, start, p)
  }

  lemma BlockStepMapping(m: Image, start: nat, p: nat, w: Word, count: Word)
    requires m.Valid() && Definite(m, start, p)
    ensures var r := StoreBlock(m, start, p, w, count); r.Valid() && SameMapping(m, r)
  {
    StoreMapping(m, p, w);
    hide Store, Set64;
  }

  lemma DefiniteSame(a: Image, b: Image, start: nat, p: nat)
    requires a.Valid() && b.Valid() && SameMapping(a, b) && Definite(a, start, p)
    ensures Definite(b, start, p)
    ensures Sound(a, start, p) == Sound(b, start, p)
  {
  }

  /** The first `n` steps of a block write; steps beyond the last address do nothing. */
  function AfterBlock(m: Image, mem: seq<Byte>, n: nat): (r: Image)
    requires m.Valid() && |mem| >= 264 && 13 + 2 * n <= |mem| && n <= Second(mem)
    requires DefiniteBlock(m, Start(mem), Second(mem))
    ensures r.Valid() && SameMapping(m, r)
  {
    if n == 0 then m
    else
      var before := AfterBlock(m, mem, n - 1);
      var p := Start(mem) + n - 1;
      if p >= END_64B then before
      else
        DefiniteSame(m, before, Start(mem), p);
        BlockStepMapping(before, Start(mem), p, WordAt(mem, n - 1), Second(mem));
        StoreBlock(before, Start(mem), p, WordAt(mem, n - 1), Second(mem))
  }

  lemma BlockStart(m: Image, mem: seq<Byte>)
    requires m.Valid() && |mem| >= 264 && DefiniteBlock(m, Start(mem), Second(mem))
    ensures AfterBlock(m, mem, 0) == m
  {
  }

  lemma BlockNext(m: Image, mem: seq<Byte>, i: nat)
    requires m.Valid() && |mem| >= 264 && 13 + 2 * (i + 1) <= |mem| && i < Second(mem)
    requires DefiniteBlock(m, Start(mem), Second(mem))
    ensures var p := Start(mem) + i; var now := AfterBlock(m, mem, i);
      && now.Valid()
      && (p < END_64B ==> Definite(now, Start(mem), p))
      && AfterBlock(m, mem, i + 1) ==
        if p < END_64B then StoreBlock(now, Start(mem), p, WordAt(mem, i), Second(mem)) else now
  {
    var p := Start(mem) + i;
    if p < END_64B {
      assert Definite(m, Start(mem), p);
      DefiniteSame(m, AfterBlock(m, mem, i), Start(mem), p);
    }
    hide StoreBlock;
  }

  function AnswerWriteRegisters(m: Image, mem: seq<Byte>, size: nat): Response
    requires |mem| >= 264 && size <= |mem| && m.Valid()
    requires Complete(mem, size, 2 * Second(mem)) ==> DefiniteBlock(m, Start(mem), Second(mem))
  {
    var n := Second(mem);
    if !Complete(mem, size, 2 * n) then Response(m, ErrorReply(mem, ILLEGAL_DATA_VALUE))
    else
      Response(
        AfterBlock(m, mem, n),
        if n > 0 && Start(mem) + n > END_64B then ErrorReply(mem, ILLEGAL_DATA_ADDRESS) else EchoReply(mem))
  }

  /** The request reads and writes inside the tables and follows no null pointer. */
  predicate Runs(m: Image, mem: seq<Byte>, size: nat)
    requires |mem| >= 264 && m.Valid()
  {
    && (size >= 12 && mem[7] == 3 && 2 * Second(mem) <= 255 ==> InBounds(Start(mem), Second(mem)))
    && (size >= 12 && mem[7] == 6 ==> Start(mem) != MIN_16B)
    && (mem[7] == 16 && Complete(mem, size, 2 * Second(mem)) ==> DefiniteBlock(m, Start(mem), Second(mem)))
  }

  function Answer(m: Image, mem: seq<Byte>, size: nat): Response
    requires |mem| >= 264 && size <= |mem| && m.Valid() && Runs(m, mem, size)
  {
    if size < 8 then Response(m, ErrorReply(mem, ILLEGAL_FUNCTION))
    else if mem[7] == 1 then Response(m, AnswerReadBits(m.boolOutput, mem, size))
    else if mem[7] == 2 then Response(m, AnswerReadBits(m.boolInput, mem, size))
    else if mem[7] == 3 then Response(m, AnswerReadHolding(m, mem, size))
    else if mem[7] == 4 then Response(m, AnswerReadInputs(m, mem, size))
    else if mem[7] == 5 then AnswerWriteCoil(m, mem, size)
    else if mem[7] == 6 then AnswerWriteRegister(m, mem, size)
    else if mem[7] == 15 then AnswerWriteCoils(m, mem, size)
    else if mem[7] == 16 then AnswerWriteRegisters(m, mem, size)
    else Response(m, ErrorReply(mem, ILLEGAL_FUNCTION))
  }

  // ---------- the handlers ----------

  /** bitWrite on one byte */
  function BitWrite(v: Byte, j: nat, on: bool): Byte
    requires j < 8
  {
    ShlEight();
    ShlMonotone(j + 1, 8);
    OrBound(v, Shl(1, j), 8);
    AndBound(v, 0xFF - Shl(1, j));
    if on then Or(v, Shl(1, j)) else And(v, 0xFF - Shl(1, j))
  }

  lemma BitWriteBit(v: Byte, j: nat, on: bool, k: nat)
    requires j < 8 && k < 8
    ensures Bit(BitWrite(v, j, on), k) == if k == j then on else Bit(v, k)
  {
    ShlEight();
    ShlMonotone(j + 1, 8);
    OrBit(v, Shl(1, j), k);
    AndBit(v, 0xFF - Shl(1, j), k);
    ComplementBitWithin(8, 0xFF - Shl(1, j), Shl(1, j), k);
    ShlBit(1, j, k);
    if j <= k { OneBit(k - j); }
  }

  lemma OneBit(k: nat)
    ensures Bit(1, k) == (k == 0)
  {
    if k > 0 { BitZero(k - 1); }
  }

  /** bitRead */
  function BitRead(v: Byte, j: nat): (b: Byte)
    ensures b == if Bit(v, j) then 1 else 0
  {
    AndLow(Shr(v, j), 1);
    ShrBit(v, j, 0);
    And(Shr(v, j), 1)
  }

  /** The buffer of a read handler at work: the reply's header is written, and `done` of its data. */
  ghost predicate Prepared(buf: seq<Byte>, mem: seq<Byte>, bytes: Byte, done: seq<Byte>) {
    && |buf| == |mem| >= 264
    && |done| <= bytes
    && buf[..9] == mem[..4] + [Hi(bytes + 3), Lo(bytes + 3), mem[6], mem[7], bytes]
    && buf[9..9 + |done|] == done
  }

  lemma PreparedTouch(buf: seq<Byte>, mem: seq<Byte>, bytes: Byte, done: seq<Byte>, at: nat, x: Byte)
    requires Prepared(buf, mem, bytes, done) && 9 + |done| <= at < |buf|
    ensures Prepared(buf[at := x], mem, bytes, done)
    ensures at == 9 + |done| && |done| < bytes ==> Prepared(buf[at := x], mem, bytes, done + [x])
  {
    var now := buf[at := x];
    assert now[..9] == buf[..9];
    assert now[9..9 + |done|] == buf[9..9 + |done|];
    if at == 9 + |done| {
      assert now[9..10 + |done|] == now[9..9 + |done|] + [x];
      assert |done + [x]| == |done| + 1;
    }
  }

  lemma PreparedTwo(buf: seq<Byte>, mem: seq<Byte>, bytes: Byte, done: seq<Byte>, hi: Byte, lo: Byte)
    requires Prepared(buf, mem, bytes, done) && |done| + 2 <= bytes
    ensures 9 + |done| + 2 <= |buf|
    ensures Prepared(buf[9 + |done| := hi][10 + |done| := lo], mem, bytes, done + [hi, lo])
  {
    PreparedTouch(buf, mem, bytes, done, 9 + |done|, hi);
    PreparedTouch(buf[9 + |done| := hi], mem, bytes, done + [hi], 10 + |done|, lo);
    assert done + [hi] + [lo] == done + [hi, lo];
  }

  lemma PreparedError(buf: seq<Byte>, mem: seq<Byte>, bytes: Byte, done: seq<Byte>, code: Byte)
    requires Prepared(buf, mem, bytes, done)
    ensures ErrorReply(buf, code) == ErrorReply(mem, code)
  {
    hide WithHighBit;
    assert buf[..4] == buf[..9][..4] == mem[..4];
    assert buf[6] == buf[..9][6] && buf[7] == buf[..9][7];
  }

  lemma PreparedDone(buf: seq<Byte>, mem: seq<Byte>, done: seq<Byte>)
    requires |done| <= 255 && Prepared(buf, mem, |done|, done)
    ensures buf[..9 + |done|] == DataReply(mem, done)
  {
    assert buf[..9 + |done|] == buf[..9] + buf[9..9 + |done|];
  }

  class Server {
    var image: Image
    var messageLength: nat

    method ModbusError(buffer: array<Byte>, mbError: Byte)
      requires buffer.Length >= 264
      modifies buffer, this`messageLength
      ensures messageLength == 9 && buffer[..9] == ErrorReply(old(buffer[..]), mbError)
    {
      buffer[4] := 0;
      buffer[5] := 3;
      buffer[7] := WithHighBit(buffer[7]);
      buffer[8] := mbError;
      messageLength := 9;
    }

    /** The header of a reply that carries data */
    method Prepare(buffer: array<Byte>, byteDataLength: Byte)
      requires buffer.Length >= 264
      modifies buffer
      ensures Prepared(buffer[..], old(buffer[..]), byteDataLength, [])
    {
      buffer[4] := Hi(byteDataLength + 3);
      buffer[5] := Lo(byteDataLength + 3);
      buffer[8] := byteDataLength;
    }

    /** Eight coils into one byte of the reply */
    method PackByte(table: seq<Cell<Byte>>, position: nat, buffer: array<Byte>, at: nat) returns (valid: bool)
      requires |table| == 8192 && at < buffer.Length
      modifies buffer
      ensures valid == (position + 8 <= MAX_COILS)
      ensures valid ==> buffer[at] == CoilByte(table, position)
      ensures buffer[..] == old(buffer[..])[at := buffer[at]]
    {
      valid := true;
      for j := 0 to 8
        invariant valid == (j == 0 || position + j <= MAX_COILS)
        invariant valid ==> forall k: nat :: k < j ==> Bit(buffer[at], k) == On(table[position + k])
        invariant buffer[..] == old(buffer[..])[at := buffer[at]]
      {
        if position + j < MAX_COILS {
          ghost var was := buffer[at];
          var cell := table[position + j];
          buffer[at] := BitWrite(buffer[at], j, if cell.Mapped? then cell.value != 0 else false);
          forall k: nat | k <= j ensures Bit(buffer[at], k) == if k == j then On(cell) else Bit(was, k) {
            BitWriteBit(was, j, On(cell), k);
          }
        } else {
          valid := false;
        }
      }
      if valid {
        forall k: nat | k < 8 ensures Bit(buffer[at], k) == Bit(CoilByte(table, position), k) {
          CoilByteBit(table, position, k);
        }
        ByteFromBits(buffer[at], CoilByte(table, position));
      }
    }

    method PackCoils(table: seq<Cell<Byte>>, start: nat, byteDataLength: Byte, buffer: array<Byte>, ghost mem: seq<Byte>)
      returns (mbError: bool, ghost done: seq<Byte>)
      requires |table| == 8192 && buffer.Length >= 264
      requires Prepared(buffer[..], mem, byteDataLength, [])
      modifies buffer
      ensures Prepared(buffer[..], mem, byteDataLength, done)
      ensures mbError == (byteDataLength > 0 && start + 8 * byteDataLength > MAX_COILS)
      ensures !mbError ==> |done| == byteDataLength
      ensures !mbError && byteDataLength > 0 ==> done == CoilBytes(table, start, byteDataLength)
    {
      hide Prepared, CoilBytes, CoilByte;
      done := [];
      NoCoils(table, start);
      mbError := false;
      for i := 0 to byteDataLength
        invariant Prepared(buffer[..], mem, byteDataLength, done) && |done| <= i
        invariant mbError == (i > 0 && start + 8 * i > MAX_COILS)
        invariant !mbError && i > 0 ==> done == CoilBytes(table, start, i)
        invariant !mbError ==> |done| == i
      {
        ghost var was := buffer[..];
        var valid := PackByte(table, start + i * 8, buffer, 9 + i);
        PreparedTouch(was, mem, byteDataLength, done, 9 + i, buffer[9 + i]);
        if valid {
          CoilsSnoc(table, start, i);
          done := done + [buffer[9 + i]];
        } else {
          mbError := true;
        }
      }
    }

    /** The end of a read handler: an error reply over what was prepared, or the length. */
    method Finish(mbError: bool, byteDataLength: Byte, buffer: array<Byte>, ghost mem: seq<Byte>, ghost done: seq<Byte>)
      requires buffer.Length >= 264 && Prepared(buffer[..], mem, byteDataLength, done)
      requires !mbError ==> |done| == byteDataLength
      modifies buffer, this`messageLength
      ensures messageLength <= buffer.Length
      ensures buffer[..messageLength] ==
        if mbError then ErrorReply(mem, ILLEGAL_DATA_ADDRESS) else DataReply(mem, done)
    {
      hide Prepared, ErrorReply, DataReply;
      if mbError {
        PreparedError(buffer[..], mem, byteDataLength, done, ILLEGAL_DATA_ADDRESS);
        ModbusError(buffer, ILLEGAL_DATA_ADDRESS);
      } else {
        PreparedDone(buffer[..], mem, done);
        messageLength := byteDataLength + 9;
      }
    }

    /** ReadCoils and ReadDiscreteInputs, which differ in the table only */
    method ReadBits(table: seq<Cell<Byte>>, buffer: array<Byte>, bufferSize: nat)
      requires |table| == 8192 && bufferSize <= buffer.Length && buffer.Length >= 264
      modifies buffer, this`messageLength
      ensures messageLength <= buffer.Length
      ensures buffer[..messageLength] == AnswerReadBits(table, old(buffer[..]), bufferSize)
    {
      hide Prepared, ErrorReply, DataReply, CoilBytes;
      if bufferSize < 12 {
        ModbusError(buffer, ILLEGAL_DATA_VALUE);
        return;
      }
      var start, coilDataLength := Join(buffer[8], buffer[9]), Join(buffer[10], buffer[11]);
      var byteDataLength := coilDataLength / 8;
      if byteDataLength * 8 < coilDataLength { byteDataLength := byteDataLength + 1; }
      if byteDataLength > 255 {
        ModbusError(buffer, ILLEGAL_DATA_ADDRESS);
        return;
      }
      ghost var mem := buffer[..];
      Prepare(buffer, byteDataLength);
      var mbError, done := PackCoils(table, start, byteDataLength, buffer, mem);
      Finish(mbError, byteDataLength, buffer, mem, done);
    }

    /** The loop body of ReadHoldingRegisters */
    method FetchHolding(position: nat, buffer: array<Byte>, at: nat) returns (valid: bool)
      requires image.Valid() && position != MIN_16B && at + 1 < buffer.Length
      modifies buffer
      ensures valid == (position < END_64B)
      ensures buffer[..] ==
        if valid then old(buffer[..])[at := Fetched(image, position).0][at + 1 := Fetched(image, position).1]
        else old(buffer[..])
    {
      hide Part;
      valid := true;
      if position <= MIN_16B {
        match image.intOutput[position] {
          case Mapped(v) => buffer[at], buffer[at + 1] := Hi(v), Lo(v);
          case Unmapped => buffer[at], buffer[at + 1] := 0, 0;
        }
      } else if position < MIN_32B {
        match image.intMemory[position - MIN_16B] {
          case Mapped(v) => buffer[at], buffer[at + 1] := Hi(v), Lo(v);
          case Unmapped => buffer[at], buffer[at + 1] := 0, 0;
        }
      } else if position < MIN_64B {
        match image.dintMemory[(position - MIN_32B) / 2] {
          case Mapped(v) =>
            var tempValue := if (position - MIN_32B) % 2 == 0 then Part(v, 16) else Part(v, 0);
            buffer[at], buffer[at + 1] := Hi(tempValue), Lo(tempValue);
          case Unmapped =>
            buffer[at], buffer[at + 1] := Lo(image.holdingRegs[position]), Lo(image.holdingRegs[position]);
        }
      } else if position < END_64B {
        match image.lintMemory[(position - MIN_64B) / 4] {
          case Mapped(v) =>
            var tempValue;
            if (position - MIN_64B) % 4 == 0 { tempValue := Part(v, 48); }
            else if (position - MIN_64B) % 4 == 1 { tempValue := Part(v, 32); }
            else if (position - MIN_64B) % 4 == 2 { tempValue := Part(v, 16); }
            else { tempValue := Part(v, 0); }
            buffer[at], buffer[at + 1] := Hi(tempValue), Lo(tempValue);
          case Unmapped =>
            buffer[at], buffer[at + 1] := Lo(image.holdingRegs[position]), Lo(image.holdingRegs[position]);
        }
      } else {
        valid := false;
      }
    }

    /** ReadHoldingRegisters */
    method ReadHoldingRegisters(buffer: array<Byte>, bufferSize: nat)
      requires image.Valid() && bufferSize <= buffer.Length && buffer.Length >= 264
      requires bufferSize >= 12 && 2 * Second(buffer[..]) <= 255 ==> InBounds(Start(buffer[..]), Second(buffer[..]))
      modifies buffer, this`messageLength
      ensures messageLength <= buffer.Length
      ensures buffer[..messageLength] == AnswerReadHolding(image, old(buffer[..]), bufferSize)
    {
      hide Prepared, ErrorReply, DataReply, HoldingBytes, Fetched;
      if bufferSize < 12 {
        ModbusError(buffer, ILLEGAL_DATA_VALUE);
        return;
      }
      var start: nat, wordDataLength: nat := Join(buffer[8], buffer[9]), Join(buffer[10], buffer[11]);
      var byteDataLength: nat := wordDataLength * 2;
      if byteDataLength > 255 {
        ModbusError(buffer, ILLEGAL_DATA_ADDRESS);
        return;
      }
      ghost var mem := buffer[..];
      Prepare(buffer, byteDataLength);
      var mbError, done := FetchRegisters(start, wordDataLength, buffer, mem);
      Finish(mbError, byteDataLength, buffer, mem, done);
    }

    method FetchRegisters(start: nat, n: nat, buffer: array<Byte>, ghost mem: seq<Byte>)
      returns (mbError: bool, ghost done: seq<Byte>)
      requires image.Valid() && InBounds(start, n) && 2 * n <= 255 && buffer.Length >= 264
      requires Prepared(buffer[..], mem, 2 * n, [])
      modifies buffer
      ensures Prepared(buffer[..], mem, 2 * n, done)
      ensures mbError == (n > 0 && start + n > END_64B)
      ensures !mbError ==> |done| == 2 * n
      ensures !mbError && n > 0 ==> done == HoldingBytes(image, start, n)
    {
      hide Prepared, HoldingBytes, Fetched;
      done := [];
      NoRegisters(image, start);
      mbError := false;
      for i := 0 to n
        invariant Prepared(buffer[..], mem, 2 * n, done) && |done| <= 2 * i
        invariant mbError == (i > 0 && start + i > END_64B)
        invariant !mbError ==> |done| == 2 * i && (i > 0 ==> done == HoldingBytes(image, start, i))
      {
        ghost var was := buffer[..];
        var valid := FetchHolding(start + i, buffer, 9 + 2 * i);
        if valid {
          var hi: Byte, lo: Byte := buffer[9 + 2 * i], buffer[10 + 2 * i];
          PreparedTwo(was, mem, 2 * n, done, hi, lo);
          HoldingSnoc(image, start, i);
          done := done + [hi, lo];
        } else {
          mbError := true;
        }
      }
    }

    /** ReadInputRegisters */
    method ReadInputRegisters(buffer: array<Byte>, bufferSize: nat)
      requires image.Valid() && bufferSize <= buffer.Length && buffer.Length >= 264
      modifies buffer, this`messageLength
      ensures messageLength <= buffer.Length
      ensures buffer[..messageLength] == AnswerReadInputs(image, old(buffer[..]), bufferSize)
    {
      hide Prepared, ErrorReply, DataReply, InputBytes;
      if bufferSize < 12 {
        ModbusError(buffer, ILLEGAL_DATA_VALUE);
        return;
      }
      var start: nat, wordDataLength: nat := Join(buffer[8], buffer[9]), Join(buffer[10], buffer[11]);
      var byteDataLength: nat := wordDataLength * 2;
      if byteDataLength > 255 {
        ModbusError(buffer, ILLEGAL_DATA_ADDRESS);
        return;
      }
      ghost var mem := buffer[..];
      Prepare(buffer, byteDataLength);
      var mbError, done := FetchInputs(start, wordDataLength, buffer, mem);
      Finish(mbError, byteDataLength, buffer, mem, done);
    }

    method FetchInputs(start: nat, n: nat, buffer: array<Byte>, ghost mem: seq<Byte>)
      returns (mbError: bool, ghost done: seq<Byte>)
      requires image.Valid() && 2 * n <= 255 && buffer.Length >= 264
      requires Prepared(buffer[..], mem, 2 * n, [])
      modifies buffer
      ensures Prepared(buffer[..], mem, 2 * n, done)
      ensures mbError == (n > 0 && start + n > 1024)
      ensures !mbError ==> |done| == 2 * n
      ensures !mbError && n > 0 ==> done == InputBytes(image, start, n)
    {
      hide Prepared, InputBytes;
      done := [];
      NoInputs(image, start);
      mbError := false;
      for i := 0 to n
        invariant Prepared(buffer[..], mem, 2 * n, done) && |done| <= 2 * i
        invariant mbError == (i > 0 && start + i > 1024)
        invariant !mbError ==> |done| == 2 * i && (i > 0 ==> done == InputBytes(image, start, i))
      {
        var position := start + i;
        if position < 1024 {
          ghost var was: seq<Byte> := buffer[..];
          var cell := image.intInput[position];
          var hi: Byte, lo: Byte := 0, 0;
          if cell.Mapped? { hi, lo := Hi(cell.value), Lo(cell.value); }
          buffer[9 + 2 * i], buffer[10 + 2 * i] := hi, lo;
          PreparedTwo(was, mem, 2 * n, done, hi, lo);
          assert buffer[..] == was[9 + |done| := hi][10 + |done| := lo];
          InputSnoc(image, start, i);
          done := done + [hi, lo];
        } else {
          mbError := true;
        }
      }
    }

    method Acknowledge(mbError: bool, buffer: array<Byte>)
      requires buffer.Length >= 264
      modifies buffer, this`messageLength
      ensures messageLength <= buffer.Length
      ensures buffer[..messageLength] ==
        if mbError then ErrorReply(old(buffer[..]), ILLEGAL_DATA_ADDRESS) else EchoReply(old(buffer[..]))
    {
      if mbError {
        ModbusError(buffer, ILLEGAL_DATA_ADDRESS);
      } else {
        ghost var mem := buffer[..];
        buffer[4] := 0;
        buffer[5] := 6;
        messageLength := 12;
        assert buffer[..12] == mem[..4] + [0, 6] + mem[6..12];
      }
    }

    /** WriteCoil */
    method WriteCoil(buffer: array<Byte>, bufferSize: nat)
      requires image.Valid() && bufferSize <= buffer.Length && buffer.Length >= 264
      modifies buffer, this
      ensures messageLength <= buffer.Length
      ensures Response(image, buffer[..messageLength]) == AnswerWriteCoil(old(image), old(buffer[..]), bufferSize)
    {
      hide ErrorReply, EchoReply;
      if bufferSize < 12 {
        ModbusError(buffer, ILLEGAL_DATA_VALUE);
        return;
      }
      var start := Join(buffer[8], buffer[9]);
      var mbError := false;
      if start < MAX_COILS {
        var value: Byte := if Join(buffer[10], buffer[11]) > 0 then 1 else 0;
        if image.boolOutput[start].Mapped? {
          image := image.(boolOutput := image.boolOutput[start := Mapped(value)]);
        }
      } else {
        mbError := true;
      }
      Acknowledge(mbError, buffer);
    }

    /** The assignments of WriteRegister to a 32-bit variable */
    method Put32(i: nat, position: nat, w: Word)
      requires i < 1024 && image.Valid() && image.dintMemory[i].Mapped?
      modifies this`image
      ensures image == old(image).(dintMemory :=
        old(image).dintMemory[i := Mapped(Set32(old(image).dintMemory[i].value, position, w))])
    {
      var v := image.dintMemory[i].value;
      ghost var wanted := Set32(v, position, w);
      var r: nat;
      if position % 2 == 0 {
        r := And(v, 0x0000_FFFF);
        r := Or(r, Shl(w, 16));
      } else {
        r := And(v, 0xFFFF_0000);
        r := Or(r, Shl(w, 0));
      }
      hide Or, And, Shl;
      assert r == wanted;
      image := image.(dintMemory := image.dintMemory[i := Mapped(r)]);
    }

    /** The assignments of WriteRegister to word `k` of a 64-bit variable */
    method Put64(i: nat, k: nat, w: Word)
      requires i < 1024 && k < 4 && image.Valid() && image.lintMemory[i].Mapped?
      modifies this`image
      ensures image == old(image).(lintMemory :=
        old(image).lintMemory[i := Mapped(Set64(old(image).lintMemory[i].value, k, w))])
    {
      var v := image.lintMemory[i].value;
      ghost var wanted := Set64(v, k, w);
      hide Or, And, Shl;
      var r: nat;
      if k == 0 {
        r := And(v, 0x0000_FFFF_FFFF_FFFF);
        r := Or(r, Shl(w, 48));
      } else if k == 1 {
        r := And(v, 0xFFFF_0000_FFFF_FFFF);
        r := Or(r, Shl(w, 32));
      } else if k == 2 {
        r := And(v, 0xFFFF_FFFF_0000_FFFF);
        r := Or(r, Shl(w, 16));
      } else {
        r := And(v, 0xFFFF_FFFF_FFFF_0000);
        r := Or(r, Shl(w, 0));
      }
      assert r == wanted;
      image := image.(lintMemory := image.lintMemory[i := Mapped(r)]);
    }

    /** The branches of WriteRegister */
    method Put(position: nat, w: Word) returns (valid: bool)
      requires image.Valid() && position != MIN_16B
      modifies this`image
      ensures valid == (position < END_64B)
      ensures image == if valid then Store(old(image), position, w) else old(image)
    {
      hide Set32, Set64;
      valid := true;
      if position <= MIN_16B {
        if image.intOutput[position].Mapped? {
          image := image.(intOutput := image.intOutput[position := Mapped(w)]);
        }
      } else if position < MIN_32B {
        if image.intMemory[position - MIN_16B].Mapped? {
          image := image.(intMemory := image.intMemory[position - MIN_16B := Mapped(w)]);
        }
      } else if position < MIN_64B {
        if image.dintMemory[(position - MIN_32B) / 2].Mapped? {
          Put32((position - MIN_32B) / 2, position, w);
        } else {
          image := image.(holdingRegs := image.holdingRegs[position := w]);
        }
      } else if position < END_64B {
        if image.lintMemory[(position - MIN_64B) / 4].Mapped? {
          Put64((position - MIN_64B) / 4, position % 4, w);
        } else {
          image := image.(holdingRegs := image.holdingRegs[position := w]);
        }
      } else {
        valid := false;
      }
    }

    /** WriteRegister */
    method WriteRegister(buffer: array<Byte>, bufferSize: nat)
      requires image.Valid() && bufferSize <= buffer.Length && buffer.Length >= 264
      requires bufferSize >= 12 ==> Start(buffer[..]) != MIN_16B
      modifies buffer, this
      ensures messageLength <= buffer.Length
      ensures Response(image, buffer[..messageLength]) == AnswerWriteRegister(old(image), old(buffer[..]), bufferSize)
    {
      hide ErrorReply, EchoReply, Store;
      if bufferSize < 12 {
        ModbusError(buffer, ILLEGAL_DATA_VALUE);
        return;
      }
      var start := Join(buffer[8], buffer[9]);
      var valid := Put(start, Join(buffer[10], buffer[11]));
      Acknowledge(!valid, buffer);
    }

    method PutCoil(position: nat, value: Byte) returns (valid: bool)
      requires image.Valid()
      modifies this`image
      ensures valid == (position < MAX_COILS)
      ensures var table := old(image).boolOutput;
        image == old(image).(boolOutput :=
          if position < MAX_COILS && table[position].Mapped? then table[position := Mapped(value)] else table)
    {
      valid := position < MAX_COILS;
      if valid && image.boolOutput[position].Mapped? {
        image := image.(boolOutput := image.boolOutput[position := Mapped(value)]);
      }
    }

    /** The loops of WriteMultipleCoils */
    method PutCoils(start: nat, n: Byte, buffer: array<Byte>) returns (mbError: bool)
      requires image.Valid() && 13 + n <= buffer.Length
      modifies this`image
      ensures mbError == (n > 0 && start + 8 * n > MAX_COILS)
      ensures image == old(image).(boolOutput := StoreBits(old(image).boolOutput, start, buffer[13..13 + n], 8 * n))
    {
      hide StoreBits;
      ghost var m, data := image, buffer[13..13 + n];
      StoreNoBits(m.boolOutput, start, data);
      mbError := false;
      for i := 0 to n
        invariant mbError == (i > 0 && start + 8 * i > MAX_COILS)
        invariant image == m.(boolOutput := StoreBits(m.boolOutput, start, data, 8 * i))
      {
        for j := 0 to 8
          invariant mbError == (i + j > 0 && start + 8 * i + j > MAX_COILS)
          invariant image == m.(boolOutput := StoreBits(m.boolOutput, start, data, 8 * i + j))
        {
          assert data[i] == buffer[13 + i] && (8 * i + j) / 8 == i && (8 * i + j) % 8 == j;
          StoreNextBit(m.boolOutput, start, data, 8 * i + j);
          var valid := PutCoil(start + i * 8 + j, BitRead(buffer[13 + i], j));
          if !valid { mbError := true; }
        }
      }
    }

    /** WriteMultipleCoils */
    method WriteMultipleCoils(buffer: array<Byte>, bufferSize: nat)
      requires image.Valid() && bufferSize <= buffer.Length && buffer.Length >= 264
      modifies buffer, this
      ensures messageLength <= buffer.Length
      ensures Response(image, buffer[..messageLength]) == AnswerWriteCoils(old(image), old(buffer[..]), bufferSize)
    {
      hide ErrorReply, EchoReply, StoreBits;
      if bufferSize < 12 {
        ModbusError(buffer, ILLEGAL_DATA_VALUE);
        return;
      }
      var start: nat, coilDataLength := Join(buffer[8], buffer[9]), Join(buffer[10], buffer[11]);
      var byteDataLength := coilDataLength / 8;
      if byteDataLength * 8 < coilDataLength { byteDataLength := byteDataLength + 1; }
      if bufferSize < 13 + byteDataLength || buffer[12] != byteDataLength {
        ModbusError(buffer, ILLEGAL_DATA_VALUE);
        return;
      }
      var mbError := PutCoils(start, byteDataLength, buffer);
      Acknowledge(mbError, buffer);
    }

    /** The branches of WriteMultipleRegisters */
    method PutInBlock(start: nat, position: nat, w: Word, count: Word)
      requires image.Valid() && Definite(image, start, position)
      modifies this`image
      ensures image == StoreBlock(old(image), start, position, w, count)
    {
      hide Set32, Set64;
      if position <= MIN_16B {
        if image.intOutput[position].Mapped? {
          image := image.(intOutput := image.intOutput[position := Mapped(w)]);
        }
      } else if position < MIN_32B {
        if image.intMemory[position - MIN_16B].Mapped? {
          image := image.(intMemory := image.intMemory[position - MIN_16B := Mapped(w)]);
        }
      } else if position < MIN_64B {
        if image.dintMemory[Index32(start)].Mapped? {
          Put32((position - MIN_32B) / 2, position, w);
        } else {
          image := image.(holdingRegs := image.holdingRegs[position := w]);
        }
      } else {
        var i := (position - MIN_64B) / 4;
        if image.lintMemory[i].Mapped? {
          if (position - MIN_64B) % 4 == 0 { Put64(i, 0, w); }
          else if Remainder(start - MIN_64B, 4) == 1 { Put64(i, 1, w); }
          else if Remainder(start - MIN_64B, 4) == 2 { Put64(i, 2, w); }
          else if Remainder(start - MIN_64B, 4) == 3 { Put64(i, 3, w); }
        } else {
          image := image.(holdingRegs := image.holdingRegs[start := count]);
        }
      }
    }

    /** The loop of WriteMultipleRegisters */
    method PutRegisters(buffer: array<Byte>) returns (mbError: bool)
      requires image.Valid() && buffer.Length >= 264 && 13 + 2 * Second(buffer[..]) <= buffer.Length
      requires DefiniteBlock(image, Start(buffer[..]), Second(buffer[..]))
      modifies this`image
      ensures mbError == (Second(buffer[..]) > 0 && Start(buffer[..]) + Second(buffer[..]) > END_64B)
      ensures image == AfterBlock(old(image), buffer[..], Second(buffer[..]))
    {
      hide AfterBlock, StoreBlock, Definite;
      ghost var m, mem := image, buffer[..];
      var start: nat, wordDataLength: nat := Join(buffer[8], buffer[9]), Join(buffer[10], buffer[11]);
      BlockStart(m, mem);
      mbError := false;
      for i := 0 to wordDataLength
        invariant mbError == (i > 0 && start + i > END_64B)
        invariant image == AfterBlock(m, mem, i)
      {
        var position := start + i;
        BlockNext(m, mem, i);
        if position < END_64B {
          PutInBlock(start, position, Join(buffer[13 + i * 2], buffer[14 + i * 2]), Join(buffer[10], buffer[11]));
        } else {
          mbError := true;
        }
      }
    }

    /** WriteMultipleRegisters */
    method WriteMultipleRegisters(buffer: array<Byte>, bufferSize: nat)
      requires image.Valid() && bufferSize <= buffer.Length && buffer.Length >= 264
      requires Complete(buffer[..], bufferSize, 2 * Second(buffer[..])) ==>
        DefiniteBlock(image, Start(buffer[..]), Second(buffer[..]))
      modifies buffer, this
      ensures messageLength <= buffer.Length
      ensures Response(image, buffer[..messageLength]) ==
        AnswerWriteRegisters(old(image), old(buffer[..]), bufferSize)
    {
      hide ErrorReply, EchoReply, AfterBlock, DefiniteBlock;
      if bufferSize < 12 {
        ModbusError(buffer, ILLEGAL_DATA_VALUE);
        return;
      }
      var wordDataLength: nat := Join(buffer[10], buffer[11]);
      var byteDataLength := wordDataLength * 2;
      if bufferSize < 13 + byteDataLength || buffer[12] != byteDataLength {
        ModbusError(buffer, ILLEGAL_DATA_VALUE);
        return;
      }
      var mbError := PutRegisters(buffer);
      Acknowledge(mbError, buffer);
    }

    /** processModbusMessage */
    method Process(buffer: array<Byte>, bufferSize: nat) returns (length: nat)
      requires image.Valid() && bufferSize <= buffer.Length && buffer.Length >= 264
      requires Runs(image, buffer[..], bufferSize)
      modifies buffer, this
      ensures length <= buffer.Length
      ensures Response(image, buffer[..length]) == Answer(old(image), old(buffer[..]), bufferSize)
    {
      hide ErrorReply, AnswerReadBits, AnswerReadHolding, AnswerReadInputs;
      hide AnswerWriteCoil, AnswerWriteRegister, AnswerWriteCoils, AnswerWriteRegisters, DefiniteBlock;
      messageLength := 0;
      if bufferSize < 8 { ModbusError(buffer, ILLEGAL_FUNCTION); }
      else if buffer[7] == 1 { ReadBits(image.boolOutput, buffer, bufferSize); }
      else if buffer[7] == 2 { ReadBits(image.boolInput, buffer, bufferSize); }
      else if buffer[7] == 3 { ReadHoldingRegisters(buffer, bufferSize); }
      else if buffer[7] == 4 { ReadInputRegisters(buffer, bufferSize); }
      else if buffer[7] == 5 { WriteCoil(buffer, bufferSize); }
      else if buffer[7] == 6 { WriteRegister(buffer, bufferSize); }
      else if buffer[7] == 15 { WriteMultipleCoils(buffer, bufferSize); }
      else if buffer[7] == 16 { WriteMultipleRegisters(buffer, bufferSize); }
      else { ModbusError(buffer, ILLEGAL_FUNCTION); }
      length := messageLength;
    }
  }
}
