/**
 What clients of the OpenPLC Modbus server can rely on: the header of every reply, coils read
 back after a write, and registers read back after any run of single writes.
 */
module PlcSessions {
  import opened Bits
  import opened PlcWords
  import opened PlcMemory
  import opened PlcModbus

  // ---------- the header of every reply ----------

  /** The MBAP header: six fixed bytes, the length of the rest, the unit and the function. */
  ghost predicate HeaderKept(mem: seq<Byte>, reply: seq<Byte>)
    requires |mem| >= 264
  {
    && 9 <= |reply| <= 264
    && reply[..4] == mem[..4]
    && Join(reply[4], reply[5]) == |reply| - 6
    && reply[6] == mem[6]
    && (reply[7] == mem[7] || reply[7] == WithHighBit(mem[7]))
  }

  lemma ErrorHeader(mem: seq<Byte>, code: Byte)
    requires |mem| >= 264
    ensures HeaderKept(mem, ErrorReply(mem, code))
  {
  }

  lemma EchoHeader(mem: seq<Byte>)
    requires |mem| >= 264
    ensures HeaderKept(mem, EchoReply(mem))
  {
  }

  lemma DataHeader(mem: seq<Byte>, data: seq<Byte>)
    requires |mem| >= 264 && |data| <= 255
    ensures HeaderKept(mem, DataReply(mem, data))
  {
    var reply := DataReply(mem, data);
    assert reply[..4] == mem[..4];
    JoinParts(|data| + 3);
  }

  /**
   Every request, well-formed or not, gets a reply of 9 to 264 bytes whose length field is right
   and which keeps the transaction, protocol and unit bytes.
   */
  lemma EveryReplyKeepsHeader(m: Image, mem: seq<Byte>, size: nat)
    requires |mem| >= 264 && size <= |mem| && m.Valid() && Runs(m, mem, size)
    ensures HeaderKept(mem, Answer(m, mem, size).reply)
  {
    hide HeaderKept, ErrorReply, DataReply, EchoReply, CoilBytes, HoldingBytes, InputBytes, DefiniteBlock;
    hide AfterBlock, StoreBits, Store;
    ErrorHeader(mem, ILLEGAL_FUNCTION);
    ErrorHeader(mem, ILLEGAL_DATA_ADDRESS);
    ErrorHeader(mem, ILLEGAL_DATA_VALUE);
    EchoHeader(mem);
    DataHeader(mem, []);
    var n := ByteCount(Second(mem));
    if mem[7] == 1 || mem[7] == 2 {
      if 0 < n <= 255 && Start(mem) + 8 * n <= MAX_COILS {
        DataHeader(mem, CoilBytes(if mem[7] == 1 then m.boolOutput else m.boolInput, Start(mem), n));
      }
    } else if mem[7] == 3 {
      if size >= 12 && 2 * Second(mem) <= 255 && Start(mem) + Second(mem) <= END_64B {
        DataHeader(mem, HoldingBytes(m, Start(mem), Second(mem)));
      }
    } else if mem[7] == 4 {
      if 2 * Second(mem) <= 255 && Start(mem) + Second(mem) <= 1024 {
        DataHeader(mem, InputBytes(m, Start(mem), Second(mem)));
      }
    }
  }

  // ---------- coils ----------

  /** The bit the client sent for the coil at `start + k`. */
  predicate Sent(data: seq<Byte>, k: nat)
    requires k < 8 * |data|
  {
    Bit(data[k / 8], k % 8)
  }

  lemma StoredCoil(table: seq<Cell<Byte>>, start: nat, data: seq<Byte>, k: nat)
    requires |table| == 8192 && start + 8 * |data| <= MAX_COILS && k < 8 * |data|
    ensures On(StoreBits(table, start, data, 8 * |data|)[start + k]) == (table[start + k].Mapped? && Sent(data, k))
  {
  }

  /**
   Writing coils and reading the same range gives back the bytes sent, exactly when every coil
   that was sent as on is mapped.
   */
  lemma CoilsReadBack(table: seq<Cell<Byte>>, start: nat, data: seq<Byte>)
    requires |table| == 8192 && start + 8 * |data| <= MAX_COILS
    ensures CoilBytes(StoreBits(table, start, data, 8 * |data|), start, |data|) == data <==>
      forall k :: 0 <= k < 8 * |data| && Sent(data, k) ==> table[start + k].Mapped?
  {
    var now := StoreBits(table, start, data, 8 * |data|);
    var read := CoilBytes(now, start, |data|);
    forall k | 0 <= k < 8 * |data| ensures Sent(read, k) == (table[start + k].Mapped? && Sent(data, k)) {
      CoilBytesAt(now, start, |data|, k / 8);
      CoilByteBit(now, start + 8 * (k / 8), k % 8);
      StoredCoil(table, start, data, k);
      assert start + 8 * (k / 8) + k % 8 == start + k;
    }
    hide CoilBytes, StoreBits;
    if forall k :: 0 <= k < 8 * |data| && Sent(data, k) ==> table[start + k].Mapped? {
      SameSent(read, data);
    }
  }

  lemma SameSent(a: seq<Byte>, b: seq<Byte>)
    requires |a| == |b| && forall k :: 0 <= k < 8 * |a| ==> Sent(a, k) == Sent(b, k)
    ensures a == b
  {
    forall i | 0 <= i < |a| ensures a[i] == b[i] {
      forall j: nat | j < 8 ensures Bit(a[i], j) == Bit(b[i], j) {
        assert Sent(a, 8 * i + j) == Sent(b, 8 * i + j);
        assert (8 * i + j) / 8 == i && (8 * i + j) % 8 == j;
      }
      ByteFromBits(a[i], b[i]);
    }
  }

  /** The two messages: a write of coils that is acknowledged, and a read of the same range. */
  lemma WriteThenReadCoils(m: Image, write: seq<Byte>, writeSize: nat, read: seq<Byte>, readSize: nat)
    requires |write| >= 264 && |read| >= 264 && m.Valid()
    requires 12 <= writeSize <= |write| && 12 <= readSize <= |read|
    requires write[7] == 15 && read[7] == 1 && read[8..12] == write[8..12]
    requires Answer(m, write, writeSize).reply == EchoReply(write) && Second(write) > 0
    ensures var n := ByteCount(Second(write)); var data := write[13..13 + n];
      && Complete(write, writeSize, n) && n <= 100
      && Answer(m, write, writeSize).image.Valid()
      && (Answer(Answer(m, write, writeSize).image, read, readSize).reply == DataReply(read, data) <==>
            forall k :: 0 <= k < 8 * n && Sent(data, k) ==> m.boolOutput[Start(write) + k].Mapped?)
  {
    hide CoilBytes, StoreBits;
    EchoIsNotError(write, ILLEGAL_DATA_VALUE);
    EchoIsNotError(write, ILLEGAL_DATA_ADDRESS);
    assert read[8] == read[8..12][0] && read[9] == read[8..12][1];
    assert read[10] == read[8..12][2] && read[11] == read[8..12][3];
    assert write[8] == write[8..12][0] && write[9] == write[8..12][1];
    assert write[10] == write[8..12][2] && write[11] == write[8..12][3];
    var n := ByteCount(Second(write));
    var data := write[13..13 + n];
    CoilsReadBack(m.boolOutput, Start(write), data);
    var bytes := CoilBytes(StoreBits(m.boolOutput, Start(write), data, 8 * n), Start(write), n);
    if bytes != data { DataRepliesDiffer(read, bytes, data); }
  }

  lemma EchoIsNotError(mem: seq<Byte>, code: Byte)
    requires |mem| >= 264
    ensures EchoReply(mem) != ErrorReply(mem, code)
  {
    assert EchoReply(mem)[5] == 6;
    assert ErrorReply(mem, code)[5] == 3;
  }

  lemma DataRepliesDiffer(mem: seq<Byte>, a: seq<Byte>, b: seq<Byte>)
    requires |mem| >= 264 && |a| == |b| <= 255 && a != b
    ensures DataReply(mem, a) != DataReply(mem, b)
  {
    assert DataReply(mem, a)[9..] == a && DataReply(mem, b)[9..] == b;
  }

  /** A null pointer, or a coil that already has this value. */
  predicate HasBit(cell: Cell<Byte>, on: bool) {
    cell.Mapped? ==> cell.value == if on then 1 else 0
  }

  ghost predicate HaveBits(table: seq<Cell<Byte>>, start: nat, data: seq<Byte>, from: nat, to: nat)
    requires |table| == 8192 && to <= 8 * |data|
  {
    forall k :: from <= k < to && start + k < MAX_COILS ==> HasBit(table[start + k], Sent(data, k))
  }

  /** A write of bits leaves everything outside its first `from` coils alone exactly when the rest of them have their bits. */
  lemma BeyondKeptIff(table: seq<Cell<Byte>>, start: nat, data: seq<Byte>, bits: nat, from: nat)
    requires |table| == 8192 && bits <= 8 * |data|
    ensures KeptOutside(table, StoreBits(table, start, data, bits), start, from) <==>
      HaveBits(table, start, data, from, bits)
  {
    var now := StoreBits(table, start, data, bits);
    if KeptOutside(table, now, start, from) {
      forall k | from <= k < bits && start + k < MAX_COILS ensures HasBit(table[start + k], Sent(data, k)) {
        var q := start + k;
        assert !(start <= q < start + from) && now[q] == table[q];
        if table[q].Mapped? { StoredBit(table, start, data, bits, k); }
      }
    } else {
      var q :| 0 <= q < |table| && !(start <= q < start + from) && now[q] != table[q];
      assert start <= q < start + bits && q < MAX_COILS && table[q].Mapped?;
      StoredBit(table, start, data, bits, q - start);
      assert !HasBit(table[start + (q - start)], Sent(data, q - start));
    }
  }

  ghost predicate KeptOutside(table: seq<Cell<Byte>>, now: seq<Cell<Byte>>, start: nat, count: nat) {
    |now| == |table| && forall q :: 0 <= q < |table| && !(start <= q < start + count) ==> now[q] == table[q]
  }

  /**
   A coil write keeps the coils outside the range asked for exactly when every padding coil that
   exists already has its padding bit.
   */
  lemma RangeIsRespectedIff(m: Image, mem: seq<Byte>, size: nat)
    requires |mem| >= 264 && size <= |mem| && m.Valid() && size >= 8 && mem[7] == 15
    requires Complete(mem, size, ByteCount(Second(mem)))
    ensures var n := ByteCount(Second(mem));
      KeptOutside(m.boolOutput, Answer(m, mem, size).image.boolOutput, Start(mem), Second(mem)) <==>
        HaveBits(m.boolOutput, Start(mem), mem[13..13 + n], Second(mem), 8 * n)
  {
    hide Answer, StoreBits, HaveBits, KeptOutside;
    var n := ByteCount(Second(mem));
    CoilsAfterWrite(m, mem, size);
    BeyondKeptIff(m.boolOutput, Start(mem), mem[13..13 + n], 8 * n, Second(mem));
  }

  /** A write refused for its address changes nothing exactly when every coil it reaches already has its bit. */
  lemma RefusedChangesNothingIff(m: Image, mem: seq<Byte>, size: nat)
    requires |mem| >= 264 && size <= |mem| && m.Valid() && size >= 8 && mem[7] == 15
    requires Complete(mem, size, ByteCount(Second(mem))) && Second(mem) > 0
    requires Start(mem) + 8 * ByteCount(Second(mem)) > MAX_COILS
    ensures Answer(m, mem, size).reply == ErrorReply(mem, ILLEGAL_DATA_ADDRESS)
    ensures var n := ByteCount(Second(mem));
      Answer(m, mem, size).image == m <==> HaveBits(m.boolOutput, Start(mem), mem[13..13 + n], 0, 8 * n)
  {
    hide Answer, StoreBits, HaveBits;
    var n := ByteCount(Second(mem));
    CoilsAfterWrite(m, mem, size);
    BeyondKeptIff(m.boolOutput, Start(mem), mem[13..13 + n], 8 * n, 0);
  }

  /** The padding bits of the last byte are written to the coils behind the range asked for. */
  lemma PaddingIsWritten(m: Image, mem: seq<Byte>, size: nat, k: nat)
    requires |mem| >= 264 && size <= |mem| && m.Valid() && size >= 8 && mem[7] == 15
    requires Complete(mem, size, ByteCount(Second(mem)))
    requires Second(mem) <= k < 8 * ByteCount(Second(mem)) && Start(mem) + k < MAX_COILS
    requires m.boolOutput[Start(mem) + k].Mapped?
    ensures Answer(m, mem, size).image.boolOutput[Start(mem) + k] ==
      Mapped(if Bit(mem[13 + k / 8], k % 8) then 1 else 0)
  {
    var n := ByteCount(Second(mem));
    CoilsAfterWrite(m, mem, size);
    StoredBit(m.boolOutput, Start(mem), mem[13..13 + n], 8 * n, k);
    assert mem[13..13 + n][k / 8] == mem[13 + k / 8];
    hide ErrorReply, EchoReply, Bit, StoreBits, DefiniteBlock, Image.Valid;
  }

  lemma StoredBit(table: seq<Cell<Byte>>, start: nat, data: seq<Byte>, bits: nat, k: nat)
    requires |table| == 8192 && k < bits <= 8 * |data| && start + k < MAX_COILS && table[start + k].Mapped?
    ensures StoreBits(table, start, data, bits)[start + k] == Mapped(if Bit(data[k / 8], k % 8) then 1 else 0)
  {
  }

  /** A write refused for its address has already changed the coils that exist. */
  lemma RefusedWriteStillWrites(m: Image, mem: seq<Byte>, size: nat)
    requires |mem| >= 264 && size <= |mem| && m.Valid() && size >= 8 && mem[7] == 15
    requires Complete(mem, size, ByteCount(Second(mem))) && Second(mem) > 0
    requires Start(mem) < MAX_COILS < Start(mem) + 8 * ByteCount(Second(mem))
    requires m.boolOutput[Start(mem)].Mapped?
    ensures Answer(m, mem, size).reply == ErrorReply(mem, ILLEGAL_DATA_ADDRESS)
    ensures Answer(m, mem, size).image.boolOutput[Start(mem)] == Mapped(if Bit(mem[13], 0) then 1 else 0)
  {
    var n := ByteCount(Second(mem));
    CoilsAfterWrite(m, mem, size);
    StoredBit(m.boolOutput, Start(mem), mem[13..13 + n], 8 * n, 0);
    hide ErrorReply, EchoReply, Bit, StoreBits, DefiniteBlock, Image.Valid;
  }

  lemma CoilsAfterWrite(m: Image, mem: seq<Byte>, size: nat)
    requires |mem| >= 264 && size <= |mem| && m.Valid() && size >= 8 && mem[7] == 15
    requires Complete(mem, size, ByteCount(Second(mem)))
    ensures var n := ByteCount(Second(mem));
      && Answer(m, mem, size).image == m.(boolOutput := StoreBits(m.boolOutput, Start(mem), mem[13..13 + n], 8 * n))
      && Answer(m, mem, size).reply ==
           if n > 0 && Start(mem) + 8 * n > MAX_COILS then ErrorReply(mem, ILLEGAL_DATA_ADDRESS) else EchoReply(mem)
  {
    hide ErrorReply, EchoReply, Bit, StoreBits, DefiniteBlock;
  }

  /** A single write sets the coil addressed to whether the value sent is not zero, and no other coil. */
  lemma OneCoilIsWritten(m: Image, mem: seq<Byte>, size: nat, q: nat)
    requires |mem| >= 264 && 12 <= size <= |mem| && m.Valid() && mem[7] == 5 && q < 8192
    ensures var now := Answer(m, mem, size).image.boolOutput;
      && |now| == 8192
      && On(now[q]) == if q == Start(mem) && q < MAX_COILS && m.boolOutput[q].Mapped?
           then mem[10] != 0 || mem[11] != 0 else On(m.boolOutput[q])
  {
    hide ErrorReply, EchoReply;
  }

  // ---------- registers ----------

  /** The guard of the 16-bit outputs, `position <= 1024`, is passed and the table has such an entry, or it is not passed. */
  predicate OutputIndexed(m: Image, position: nat) {
    position <= MIN_16B ==> position < |m.intOutput|
  }

  /** The reads and single writes of registers that index inside the table are those the model runs. */
  lemma RunsIffIndexedInside(m: Image, mem: seq<Byte>, size: nat)
    requires |mem| >= 264 && 12 <= size <= |mem| && m.Valid()
    ensures mem[7] == 3 && 2 * Second(mem) <= 255 ==>
      (Runs(m, mem, size) <==> forall p :: Start(mem) <= p < Start(mem) + Second(mem) ==> OutputIndexed(m, p))
    ensures mem[7] == 6 ==> (Runs(m, mem, size) <==> OutputIndexed(m, Start(mem)))
  {
    assert !OutputIndexed(m, MIN_16B);
    hide DefiniteBlock, Complete;
  }

  /** A session of WriteRegister requests, each in a buffer of its own. */
  predicate Session(messages: seq<seq<Byte>>) {
    forall i :: 0 <= i < |messages| ==> RegisterWrite(messages[i])
  }

  predicate RegisterWrite(mem: seq<Byte>) {
    |mem| >= 264 && mem[7] == 6 && Address(Start(mem))
  }

  function Writes(messages: seq<seq<Byte>>): (ws: seq<Write>)
    requires Session(messages)
    ensures Addressed(ws)
  {
    seq(|messages|, i requires 0 <= i < |messages| =>
      assert RegisterWrite(messages[i]); Write(Start(messages[i]), Second(messages[i])))
  }

  function Play(m: Image, messages: seq<seq<Byte>>): (r: Image)
    requires m.Valid() && Session(messages)
    ensures r.Valid()
  {
    if messages == [] then m
    else
      var n := |messages| - 1;
      assert RegisterWrite(messages[n]);
      StoreMapping(Play(m, messages[..n]), Start(messages[n]), Second(messages[n]));
      Answer(Play(m, messages[..n]), messages[n], 12).image
  }

  lemma WritesSnoc(messages: seq<seq<Byte>>)
    requires Session(messages) && messages != []
    ensures var n := |messages| - 1;
      && Session(messages[..n]) && RegisterWrite(messages[n]) && |Writes(messages)| == n + 1
      && Writes(messages)[..n] == Writes(messages[..n])
      && Writes(messages)[n] == Write(Start(messages[n]), Second(messages[n]))
  {
    hide RegisterWrite, Address;
  }

  lemma AnsweredByStore(m: Image, mem: seq<Byte>)
    requires m.Valid() && RegisterWrite(mem)
    ensures Runs(m, mem, 12) && Answer(m, mem, 12).image == Store(m, Start(mem), Second(mem))
  {
    hide Store, ErrorReply, EchoReply, DefiniteBlock;
  }

  lemma {:induction false} PlayIsAfter(m: Image, messages: seq<seq<Byte>>)
    requires m.Valid() && Session(messages)
    ensures Play(m, messages) == After(m, Writes(messages))
  {
    hide Store, Answer, Writes, Runs;
    if messages == [] {
      assert Writes(messages) == [] by { NoWrites(); }
    } else {
      var n := |messages| - 1;
      WritesSnoc(messages);
      PlayIsAfter(m, messages[..n]);
      AnsweredByStore(Play(m, messages[..n]), messages[n]);
      AfterSnoc(m, Writes(messages));
      hide After;
    }
  }

  lemma NoWrites()
    ensures Writes([]) == []
  {
  }

  predicate BlockRead(read: seq<Byte>, size: nat) {
    && |read| >= 264 && 12 <= size <= |read| && read[7] == 3
    && 2 * Second(read) <= 255
    && InBounds(Start(read), Second(read)) && Start(read) + Second(read) <= END_64B
  }

  function BlockReadReply(m: Image, read: seq<Byte>, size: nat): seq<Byte>
    requires m.Valid() && BlockRead(read, size)
  {
    Answer(m, read, size).reply
  }

  predicate Carries(reply: seq<Byte>, i: nat, w: Word) {
    9 + 2 * i + 1 < |reply| && Join(reply[9 + 2 * i], reply[10 + 2 * i]) == w
  }

  /**
   After any session of single-register writes, a block read returns for every register the word
   last written to it, or its initial word; a spare 32- or 64-bit register is the exception.
   */
  lemma BlockReadSeesWrites(m: Image, messages: seq<seq<Byte>>, read: seq<Byte>, size: nat, i: nat)
    requires m.Valid() && Session(messages)
    requires BlockRead(read, size) && i < Second(read)
    ensures var w := Expected(m, messages, Start(read) + i);
      Carries(BlockReadReply(Play(m, messages), read, size), i, w) <==> !Spare(m, Start(read) + i) || Hi(w) == Lo(w)
  {
    hide Session, Play, Expected, Fetched, Stored, Spare, BlockReadReply, Image.Valid;
    var p, now := Start(read) + i, Play(m, messages);
    ExpectedIsStored(m, messages, p);
    ReadWord(now, read, size, i);
    FetchedIsStored(now, p);
  }

  lemma ExpectedIsStored(m: Image, messages: seq<seq<Byte>>, p: nat)
    requires m.Valid() && Session(messages) && Address(p)
    ensures Stored(Play(m, messages), p) == Expected(m, messages, p)
    ensures Spare(Play(m, messages), p) == Spare(m, p)
  {
    PlayIsAfter(m, messages);
    RegistersRemember(m, Writes(messages), p);
    HeldSame(m, After(m, Writes(messages)), p);
    hide Held, Spare, Stored, LastWrite, After, Play, Writes;
  }

  /** The last word written to a register in a session, or its initial word. */
  function Expected(m: Image, messages: seq<seq<Byte>>, p: nat): Word
    requires m.Valid() && Session(messages) && Address(p)
  {
    var latest := LastWrite(Writes(messages), p);
    if Held(m, p) && latest.Last? then latest.value else Stored(m, p)
  }

  lemma ReadWord(m: Image, read: seq<Byte>, size: nat, i: nat)
    requires m.Valid() && BlockRead(read, size) && i < Second(read)
    ensures var reply := BlockReadReply(m, read, size);
      && |reply| == 9 + 2 * Second(read)
      && (reply[9 + 2 * i], reply[10 + 2 * i]) == Fetched(m, Start(read) + i)
  {
    var n := Second(read);
    var bytes := HoldingBytes(m, Start(read), n);
    HoldingBytesAt(m, Start(read), n, i);
    hide HoldingBytes, Fetched;
    DataAt(read, bytes, 2 * i);
    DataAt(read, bytes, 2 * i + 1);
  }

  lemma DataAt(mem: seq<Byte>, data: seq<Byte>, k: nat)
    requires |mem| >= 264 && k < |data| <= 255
    ensures |DataReply(mem, data)| == 9 + |data| && DataReply(mem, data)[9 + k] == data[k]
  {
  }

  /** A read of input registers returns every mapped input's word and zero for an unmapped one. */
  lemma InputsAreReturned(m: Image, read: seq<Byte>, size: nat, i: nat)
    requires |read| >= 264 && 12 <= size <= |read| && m.Valid() && read[7] == 4
    requires 2 * Second(read) <= 255 && Start(read) + Second(read) <= 1024 && i < Second(read)
    ensures var cell := m.intInput[Start(read) + i];
      Carries(Answer(m, read, size).reply, i, if cell.Mapped? then cell.value else 0)
  {
    hide Answer, InputBytes, DataReply, Runs, Image.Valid;
    var bytes := InputBytes(m, Start(read), Second(read));
    InputReply(m, read, size);
    InputBytesAt(m, Start(read), Second(read), i);
    DataAt(read, bytes, 2 * i);
    DataAt(read, bytes, 2 * i + 1);
  }

  lemma InputReply(m: Image, read: seq<Byte>, size: nat)
    requires |read| >= 264 && 12 <= size <= |read| && m.Valid() && read[7] == 4
    requires 2 * Second(read) <= 255 && Start(read) + Second(read) <= 1024 && Second(read) > 0
    ensures Answer(m, read, size).reply == DataReply(read, InputBytes(m, Start(read), Second(read)))
  {
    hide InputBytes, DataReply;
  }

  lemma {:induction false} InputBytesAt(m: Image, start: nat, n: nat, i: nat)
    requires m.Valid() && start + n <= 1024 && i < n
    ensures var cell := m.intInput[start + i];
      Join(InputBytes(m, start, n)[2 * i], InputBytes(m, start, n)[2 * i + 1]) == if cell.Mapped? then cell.value else 0
  {
    if i < n - 1 {
      InputBytesAt(m, start, n - 1, i);
    } else {
      var cell := m.intInput[start + i];
      if cell.Mapped? { JoinParts(cell.value); }
    }
  }

  // ---------- block writes ----------

  function BlockWrites(mem: seq<Byte>, n: nat): (ws: seq<Write>)
    requires |mem| >= 264 && 13 + 2 * n <= |mem|
    ensures |ws| == n
  {
    seq(n, i requires 0 <= i < n => Write(Start(mem) + i, WordAt(mem, i)))
  }

  /** Where every step is sound a block write is the same as its single writes in order. */
  lemma {:induction false} SoundBlock(m: Image, mem: seq<Byte>, n: nat)
    requires m.Valid() && |mem| >= 264 && 13 + 2 * n <= |mem| && n <= Second(mem)
    requires DefiniteBlock(m, Start(mem), Second(mem)) && Start(mem) + n <= END_64B
    requires forall p :: Start(mem) <= p < Start(mem) + n ==> Definite(m, Start(mem), p) && Sound(m, Start(mem), p)
    ensures Addressed(BlockWrites(mem, n))
    ensures AfterBlock(m, mem, n) == After(m, BlockWrites(mem, n))
  {
    forall i | 0 <= i < n ensures Address(BlockWrites(mem, n)[i].address) {
      assert Definite(m, Start(mem), Start(mem) + i);
    }
    if n > 0 {
      hide AfterBlock, After, StoreBlock, Store, Sound, Definite, BlockWrites;
      SoundBlock(m, mem, n - 1);
      assert Definite(m, Start(mem), Start(mem) + n - 1) && Sound(m, Start(mem), Start(mem) + n - 1);
      SoundNext(m, mem, n);
      BlockSnoc(m, mem, n);
    } else {
      assert BlockWrites(mem, 0) == [];
    }
  }

  lemma BlockSnoc(m: Image, mem: seq<Byte>, n: nat)
    requires m.Valid() && |mem| >= 264 && 13 + 2 * n <= |mem| && n > 0
    requires Addressed(BlockWrites(mem, n))
    ensures Addressed(BlockWrites(mem, n - 1)) && Address(Start(mem) + n - 1)
    ensures After(m, BlockWrites(mem, n)) ==
      Store(After(m, BlockWrites(mem, n - 1)), Start(mem) + n - 1, WordAt(mem, n - 1))
  {
    assert BlockWrites(mem, n)[..n - 1] == BlockWrites(mem, n - 1);
    assert Address(BlockWrites(mem, n)[n - 1].address);
    AfterSnoc(m, BlockWrites(mem, n));
    hide Store, After;
  }

  lemma SoundNext(m: Image, mem: seq<Byte>, n: nat)
    requires m.Valid() && |mem| >= 264 && 13 + 2 * n <= |mem| && 0 < n <= Second(mem)
    requires DefiniteBlock(m, Start(mem), Second(mem)) && Start(mem) + n <= END_64B
    requires Definite(m, Start(mem), Start(mem) + n - 1) && Sound(m, Start(mem), Start(mem) + n - 1)
    ensures AfterBlock(m, mem, n) == Store(AfterBlock(m, mem, n - 1), Start(mem) + n - 1, WordAt(mem, n - 1))
  {
    var p, before := Start(mem) + n - 1, AfterBlock(m, mem, n - 1);
    BlockNext(m, mem, n - 1);
    DefiniteSame(m, before, Start(mem), p);
    SoundStep(before, Start(mem), p, WordAt(mem, n - 1), Second(mem));
    hide AfterBlock, StoreBlock, Store, Sound, Definite;
  }

  /** A step of a block write leaves at an unsound address what was there, or the count. */
  lemma UnsoundIsNotWritten(m: Image, start: nat, p: nat, w: Word, count: Word, q: nat)
    requires m.Valid() && Definite(m, start, p) && Definite(m, start, q) && !Sound(m, start, q)
    ensures StoreBlock(m, start, p, w, count).Valid()
    ensures Stored(StoreBlock(m, start, p, w, count), q) in {Stored(m, q), count}
  {
    hide Part, Set64, Set32, Shift64, Shift32;
    BlockStepMapping(m, start, p, w, count);
    if p >= MIN_64B && m.lintMemory[(p - MIN_64B) / 4].Mapped? {
      if p == q {
        UnsoundWord(m, start, q, w, count);
      } else if StoreBlock(m, start, p, w, count) == Store(m, p, w) {
        StoreStored(m, p, w, q);
      } else {
        OtherPart(m, start, p, w, count, q);
      }
    } else if p < MIN_32B || (p < MIN_64B && m.dintMemory[Index32(start)].Mapped?) {
      UnsoundElsewhere(m, start, p, q);
      StoreStored(m, p, w, q);
    }
  }

  lemma UnsoundElsewhere(m: Image, start: nat, p: nat, q: nat)
    requires m.Valid() && Definite(m, start, p) && Definite(m, start, q) && !Sound(m, start, q)
    requires p < MIN_32B || (p < MIN_64B && m.dintMemory[Index32(start)].Mapped?)
    ensures p != q
  {
  }

  /** The part that a wrong step writes is the part of the block's first address, which is never unsound. */
  lemma OtherPart(m: Image, start: nat, p: nat, w: Word, count: Word, q: nat)
    requires m.Valid() && Definite(m, start, p) && Definite(m, start, q) && !Sound(m, start, q)
    requires p != q && p >= MIN_64B && m.lintMemory[(p - MIN_64B) / 4].Mapped?
    requires StoreBlock(m, start, p, w, count).Valid() && StoreBlock(m, start, p, w, count) != Store(m, p, w)
    ensures Stored(StoreBlock(m, start, p, w, count), q) == Stored(m, q)
  {
    hide Part, Set64, Shift64;
    var v, k := m.lintMemory[(p - MIN_64B) / 4].value, Remainder(start - MIN_64B, 4);
    if k > 0 && q >= MIN_64B { Set64Part(v, k, w, q % 4); }
  }

  /** An address of the block that is not sound. */
  ghost predicate Unsound(m: Image, start: nat, q: nat)
    requires m.Valid()
  {
    Definite(m, start, q) && !Sound(m, start, q)
  }

  /** What such an address can hold after some steps. */
  ghost predicate KeptOrCount(m: Image, now: Image, q: nat, count: Word)
    requires m.Valid() && now.Valid()
  {
    Address(q) && Stored(now, q) in {Stored(m, q), count}
  }

  lemma {:induction false} UnsoundStays(m: Image, mem: seq<Byte>, n: nat, q: nat)
    requires m.Valid() && |mem| >= 264 && 13 + 2 * n <= |mem| && n <= Second(mem)
    requires DefiniteBlock(m, Start(mem), Second(mem)) && Start(mem) + n <= END_64B
    requires Unsound(m, Start(mem), q)
    ensures KeptOrCount(m, AfterBlock(m, mem, n), q, Second(mem))
  {
    hide DefiniteBlock, AfterBlock, Unsound, KeptOrCount, StoreBlock;
    if n == 0 {
      BlockStart(m, mem);
      NothingStored(m, Start(mem), q, Second(mem));
    } else {
      UnsoundStays(m, mem, n - 1, q);
      BlockNext(m, mem, n - 1);
      OneMoreStep(m, AfterBlock(m, mem, n - 1), Start(mem), Start(mem) + n - 1, WordAt(mem, n - 1), Second(mem), q);
    }
  }

  lemma NothingStored(m: Image, start: nat, q: nat, count: Word)
    requires m.Valid() && Unsound(m, start, q)
    ensures KeptOrCount(m, m, q, count)
  {
  }

  lemma OneMoreStep(m: Image, now: Image, start: nat, p: nat, w: Word, count: Word, q: nat)
    requires m.Valid() && now.Valid() && SameMapping(m, now) && Definite(now, start, p)
    requires Unsound(m, start, q) && KeptOrCount(m, now, q, count)
    ensures StoreBlock(now, start, p, w, count).Valid()
    ensures KeptOrCount(m, StoreBlock(now, start, p, w, count), q, count)
  {
    DefiniteSame(m, now, start, q);
    UnsoundIsNotWritten(now, start, p, w, count, q);
    hide Stored, StoreBlock, Definite, Sound, SameMapping;
  }

  lemma {:induction false} LastOfBlock(mem: seq<Byte>, n: nat, i: nat)
    requires |mem| >= 264 && 13 + 2 * n <= |mem| && i < n
    ensures LastWrite(BlockWrites(mem, n), Start(mem) + i) == Last(WordAt(mem, i))
  {
    assert BlockWrites(mem, n)[..n - 1] == BlockWrites(mem, n - 1);
    if i < n - 1 { LastOfBlock(mem, n - 1, i); }
  }

  /** A block that reaches an unsound address with a word that is neither there yet nor the count differs from its single writes. */
  lemma UnsoundBlock(m: Image, mem: seq<Byte>, n: nat, q: nat)
    requires m.Valid() && |mem| >= 264 && 13 + 2 * n <= |mem| && n <= Second(mem)
    requires DefiniteBlock(m, Start(mem), Second(mem)) && Start(mem) + n <= END_64B
    requires Addressed(BlockWrites(mem, n))
    requires Start(mem) <= q < Start(mem) + n && Address(q) && Unsound(m, Start(mem), q)
    requires WordAt(mem, q - Start(mem)) !in {Stored(m, q), Second(mem)}
    ensures AfterBlock(m, mem, n) != After(m, BlockWrites(mem, n))
  {
    hide AfterBlock, After, Stored, BlockWrites, StoreBlock, Unsound, DefiniteBlock, LastWrite;
    UnsoundStays(m, mem, n, q);
    SingleWritesReach(m, mem, n, q);
  }

  lemma UnsoundIsHeld(m: Image, start: nat, q: nat)
    requires m.Valid() && Unsound(m, start, q)
    ensures Address(q) && Held(m, q)
  {
  }

  lemma SingleWritesReach(m: Image, mem: seq<Byte>, n: nat, q: nat)
    requires m.Valid() && |mem| >= 264 && 13 + 2 * n <= |mem| && Addressed(BlockWrites(mem, n))
    requires Start(mem) <= q < Start(mem) + n && Address(q) && Unsound(m, Start(mem), q)
    ensures Stored(After(m, BlockWrites(mem, n)), q) == WordAt(mem, q - Start(mem))
  {
    hide After, Stored, BlockWrites, LastWrite, Held, Unsound, Addressed, Image.Valid;
    UnsoundIsHeld(m, Start(mem), q);
    LastOfBlock(mem, n, q - Start(mem));
    RegistersRemember(m, BlockWrites(mem, n), q);
  }

  /** Two write requests for the same registers. */
  ghost predicate SameBlock(mem: seq<Byte>, other: seq<Byte>) {
    |other| == |mem| >= 264 && other[..13] == mem[..13]
  }

  ghost predicate AsSingleWrites(m: Image, mem: seq<Byte>, n: nat)
    requires m.Valid() && |mem| >= 264 && 13 + 2 * n <= |mem| && n <= Second(mem)
    requires DefiniteBlock(m, Start(mem), Second(mem)) && Addressed(BlockWrites(mem, n))
  {
    AfterBlock(m, mem, n) == After(m, BlockWrites(mem, n))
  }

  lemma SameBlockStarts(m: Image, mem: seq<Byte>, other: seq<Byte>, n: nat)
    requires m.Valid() && SameBlock(mem, other) && 13 + 2 * n <= |mem| && n <= Second(mem)
    requires DefiniteBlock(m, Start(mem), Second(mem)) && Addressed(BlockWrites(mem, n))
    ensures Start(other) == Start(mem) && Second(other) == Second(mem) && Addressed(BlockWrites(other, n))
  {
    assert forall i :: 0 <= i < 13 ==> other[i] == other[..13][i] == mem[..13][i] == mem[i];
    forall i | 0 <= i < n ensures Address(BlockWrites(other, n)[i].address) {
      assert BlockWrites(other, n)[i].address == BlockWrites(mem, n)[i].address;
    }
  }

  /**
   A block write stores any words as the single writes in order would, exactly when every address
   of the block is sound.
   */
  lemma BlockIffSound(m: Image, mem: seq<Byte>, n: nat)
    requires m.Valid() && |mem| >= 264 && 13 + 2 * n <= |mem| && n <= Second(mem)
    requires DefiniteBlock(m, Start(mem), Second(mem)) && Start(mem) + n <= END_64B
    requires Addressed(BlockWrites(mem, n))
    ensures (forall other :: SameBlock(mem, other) ==>
               (SameBlockStarts(m, mem, other, n); AsSingleWrites(m, other, n)))
      <==> SoundThroughout(m, Start(mem), n)
  {
    if SoundThroughout(m, Start(mem), n) {
      forall p | Start(mem) <= p < Start(mem) + n ensures Definite(m, Start(mem), p) && Sound(m, Start(mem), p) {
        assert !Unsound(m, Start(mem), p);
      }
      forall other | SameBlock(mem, other) ensures (SameBlockStarts(m, mem, other, n); AsSingleWrites(m, other, n)) {
        SameBlockStarts(m, mem, other, n);
        SoundBlock(m, other, n);
      }
    } else {
      var q :| Start(mem) <= q < Start(mem) + n && Unsound(m, Start(mem), q);
      var other := Differing(m, mem, n, q);
      SameBlockStarts(m, mem, other, n);
      UnsoundBlock(m, other, n, q);
      assert !AsSingleWrites(m, other, n);
    }
  }

  ghost predicate SoundThroughout(m: Image, start: nat, n: nat)
    requires m.Valid() && DefiniteBlock(m, start, n) && start + n <= END_64B
  {
    forall p :: start <= p < start + n ==> !Unsound(m, start, p)
  }

  /** The request with a word at `q` that is neither there yet nor the count. */
  lemma Differing(m: Image, mem: seq<Byte>, n: nat, q: nat) returns (other: seq<Byte>)
    requires m.Valid() && |mem| >= 264 && 13 + 2 * n <= |mem| && Start(mem) <= q < Start(mem) + n && Address(q)
    ensures SameBlock(mem, other) && WordAt(other, q - Start(mem)) !in {Stored(m, q), Second(mem)}
  {
    var i, w := q - Start(mem), Stored(m, q);
    var lo: Byte := if 0 !in {w, Second(mem)} then 0 else if 1 !in {w, Second(mem)} then 1 else 2;
    other := mem[13 + 2 * i := 0][14 + 2 * i := lo];
    hide Stored;
  }

  /** A block write of a whole mapped 64-bit variable changes its first word only. */
  lemma WholeVariableWrite(m: Image, mem: seq<Byte>, i: nat)
    requires m.Valid() && |mem| >= 264 && i < 1024 && m.lintMemory[i].Mapped?
    requires Start(mem) == MIN_64B + 4 * i && Second(mem) == 4
    requires DefiniteBlock(m, Start(mem), 4) && Address(Start(mem))
    ensures AfterBlock(m, mem, 4) == Store(m, Start(mem), WordAt(mem, 0))
    ensures forall q :: Start(mem) < q < Start(mem) + 4 ==> Stored(AfterBlock(m, mem, 4), q) == Stored(m, q)
  {
    WholeFirst(m, mem, i);
    WholeStep(m, mem, i, 1);
    WholeStep(m, mem, i, 2);
    WholeStep(m, mem, i, 3);
    hide *;
    forall q | Start(mem) < q < Start(mem) + 4 ensures Stored(AfterBlock(m, mem, 4), q) == Stored(m, q) {
      StoreStored(m, Start(mem), WordAt(mem, 0), q);
    }
  }

  lemma WholeFirst(m: Image, mem: seq<Byte>, i: nat)
    requires m.Valid() && |mem| >= 264 && i < 1024 && m.lintMemory[i].Mapped?
    requires Start(mem) == MIN_64B + 4 * i && Second(mem) == 4
    requires DefiniteBlock(m, Start(mem), 4)
    ensures AfterBlock(m, mem, 1) == Store(m, Start(mem), WordAt(mem, 0))
  {
    hide AfterBlock, Store, StoreBlock, DefiniteBlock, Definite;
    BlockStart(m, mem);
    BlockNext(m, mem, 0);
    LaterWordsIgnored(m, Start(mem), Start(mem), WordAt(mem, 0));
  }

  lemma WholeStep(m: Image, mem: seq<Byte>, i: nat, k: nat)
    requires m.Valid() && |mem| >= 264 && i < 1024 && m.lintMemory[i].Mapped? && 1 <= k < 4
    requires Start(mem) == MIN_64B + 4 * i && Second(mem) == 4
    requires DefiniteBlock(m, Start(mem), 4)
    ensures AfterBlock(m, mem, k + 1) == AfterBlock(m, mem, k)
  {
    hide AfterBlock, Store, StoreBlock, DefiniteBlock;
    BlockNext(m, mem, k);
    var now := AfterBlock(m, mem, k);
    assert now.lintMemory[i].Mapped? == m.lintMemory[i].Mapped?;
    LaterWordsIgnored(now, Start(mem), Start(mem) + k, WordAt(mem, k));
  }

  lemma LaterWordsIgnored(m: Image, start: nat, p: nat, w: Word)
    requires m.Valid() && MIN_64B <= start <= p < END_64B && start % 4 == 0
    requires m.lintMemory[(p - MIN_64B) / 4].Mapped?
    ensures Definite(m, start, p)
    ensures StoreBlock(m, start, p, w, 4) == if p % 4 == 0 then Store(m, p, w) else m
  {
    hide Set64;
  }
}
