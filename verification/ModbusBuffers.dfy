/**
 The loops of modbus.c and modbus-data.c that fill message buffers and table cells, each shown
 to write exactly the bytes or cells of its specification and nothing else.
 */
module ModbusBuffers {
  import opened Bits
  import opened ModbusFrames
  import RtuCrc

  /** `content` with `piece` written over it at `at`. */
  function Overlay<T>(content: seq<T>, at: nat, piece: seq<T>): (s: seq<T>)
    requires at + |piece| <= |content|
    ensures |s| == |content|
  {
    content[..at] + piece + content[at + |piece|..]
  }

  lemma OverlayTwice<T>(content: seq<T>, at: nat, first: seq<T>, second: seq<T>)
    requires at + |first| + |second| <= |content|
    ensures Overlay(Overlay(content, at, first), at + |first|, second) == Overlay(content, at, first + second)
  {
  }

  /** One more element behind what has been written. */
  method Store<T>(buf: array<T>, at: nat, x: T, ghost before: seq<T>, ghost start: nat, ghost piece: seq<T>)
    requires start + |piece| == at < buf.Length == |before|
    requires buf[..] == Overlay(before, start, piece)
    modifies buf
    ensures buf[..] == Overlay(before, start, piece + [x])
  {
    buf[at] := x;
    assert buf[..] == Overlay(before, start, piece)[at := x];
  }

  /** Likewise, when what is written is the beginning of `whole`. */
  method StoreNext<T>(buf: array<T>, at: nat, x: T, ghost before: seq<T>, ghost start: nat, ghost whole: seq<T>, ghost n: nat)
    requires n < |whole| && start + n == at < buf.Length == |before| && whole[n] == x
    requires buf[..] == Overlay(before, start, whole[..n])
    modifies buf
    ensures buf[..] == Overlay(before, start, whole[..n + 1])
  {
    hide *;
    PrefixSnoc(whole, n);
    Store(buf, at, x, before, start, whole[..n]);
  }

  /** A register's two bytes, high byte first. */
  method StoreWord(buf: array<Byte>, at: nat, w: Word, ghost before: seq<Byte>, ghost start: nat, ghost piece: seq<Byte>)
    requires start + |piece| == at && at + 1 < buf.Length == |before|
    requires buf[..] == Overlay(before, start, piece)
    modifies buf
    ensures buf[..] == Overlay(before, start, piece + [Hi(w)] + [Lo(w)])
  {
    hide *;
    Store(buf, at, Hi(w), before, start, piece);
    Store(buf, at + 1, Lo(w), before, start, piece + [Hi(w)]);
  }

  // ---------- reading tables into a reply ----------

  /** response_io_status */
  method PutBits(tab: array<Byte>, address: nat, nb: nat, rsp: array<Byte>, offset: nat) returns (end: nat)
    requires address + nb <= tab.Length && offset + ByteCount(nb) <= rsp.Length && rsp != tab
    modifies rsp
    ensures end == offset + ByteCount(nb)
    ensures rsp[..] == Overlay(old(rsp[..]), offset, PackCells(tab[address..address + nb]))
  {
    ghost var cells: seq<Byte>, before: seq<Byte>, done: seq<Byte> := tab[address..address + nb], rsp[..], [];
    var shift, oneByte: nat := 0, 0;
    end := offset;
    var i := address;
    while i < address + nb
      invariant address <= i <= address + nb && shift == i - address - 8 * |done|
      invariant Packing(cells, done, oneByte, i - address)
      invariant end == offset + |done| && rsp[..] == Overlay(before, offset, done)
    {
      hide *;
      PackingStep(cells, done, oneByte, i - address);
      assert cells[i - address] == tab[i];
      oneByte := Or(oneByte, Shl(tab[i], shift));
      i := i + 1;
      if shift == 7 {
        Store(rsp, end, oneByte % 0x100, before, offset, done);
        done := done + [oneByte % 0x100];
        end := end + 1;
        oneByte, shift := 0, 0;
      } else {
        shift := shift + 1;
      }
    }
    PackingEnd(cells, done, oneByte);
    hide Packing, PackCells, Overlay;
    if shift != 0 {
      Store(rsp, end, oneByte % 0x100, before, offset, done);
      end := end + 1;
    }
  }

  /** Of the first `n` cells, `done` are the bytes completed and `oneByte` the one begun. */
  ghost predicate Packing(cells: seq<Byte>, done: seq<Byte>, oneByte: nat, n: nat) {
    && n <= |cells| && 8 * |done| <= n < 8 * |done| + 8
    && done == PackCells(cells)[..|done|]
    && oneByte == OrAll(cells[8 * |done|..n])
  }

  lemma PackingStep(cells: seq<Byte>, done: seq<Byte>, oneByte: nat, n: nat)
    requires Packing(cells, done, oneByte, n) && n < |cells|
    ensures 8 * |done| <= n < 8 * |done| + 8
    ensures var b := Or(oneByte, Shl(cells[n], n - 8 * |done|));
      if n == 8 * |done| + 7 then Packing(cells, done + [b % 0x100], 0, n + 1) else Packing(cells, done, b, n + 1)
  {
    hide Or, Shl;
    OrAllSnoc(cells, 8 * |done|, n);
    if n == 8 * |done| + 7 {
      FullChunk(cells, done, OrAll(cells[8 * |done|..n + 1]));
      assert cells[n + 1..n + 1] == [];
    }
  }

  lemma PackingEnd(cells: seq<Byte>, done: seq<Byte>, oneByte: nat)
    requires Packing(cells, done, oneByte, |cells|)
    ensures 8 * |done| <= |cells| < 8 * |done| + 8
    ensures |cells| == 8 * |done| ==> done == PackCells(cells)
    ensures |cells| != 8 * |done| ==> done + [oneByte % 0x100] == PackCells(cells)
    ensures |PackCells(cells)| == ByteCount(|cells|) == |done| + if |cells| == 8 * |done| then 0 else 1
  {
    if |cells| == 8 * |done| { WholeChunks(cells, done); } else { LastChunk(cells, done, oneByte); }
  }

  lemma OrAllSnoc(cells: seq<Byte>, from: nat, i: nat)
    requires from <= i < |cells|
    ensures OrAll(cells[from..i + 1]) == Or(OrAll(cells[from..i]), Shl(cells[i], i - from))
  {
    assert cells[from..i + 1][..i - from] == cells[from..i];
  }

  lemma FullChunk(cells: seq<Byte>, done: seq<Byte>, oneByte: nat)
    requires 8 * |done| + 8 <= |cells| && done == PackCells(cells)[..|done|]
    requires oneByte == OrAll(cells[8 * |done|..8 * |done| + 8])
    ensures |done| < ByteCount(|cells|) && done + [oneByte % 0x100] == PackCells(cells)[..|done| + 1]
  {
  }

  lemma LastChunk(cells: seq<Byte>, done: seq<Byte>, oneByte: nat)
    requires |cells| % 8 != 0 && |done| == |cells| / 8 && done == PackCells(cells)[..|done|]
    requires oneByte == OrAll(cells[8 * |done|..|cells|])
    ensures |done| < ByteCount(|cells|) && done + [oneByte % 0x100] == PackCells(cells)
  {
    assert Chunk(cells, |done|) == cells[8 * |done|..|cells|];
  }

  lemma WholeChunks(cells: seq<Byte>, done: seq<Byte>)
    requires |cells| % 8 == 0 && |done| == |cells| / 8 && done == PackCells(cells)[..|done|]
    ensures done == PackCells(cells)
  {
  }

  lemma PrefixSnoc<T>(s: seq<T>, n: nat)
    requires n < |s|
    ensures s[..n + 1] == s[..n] + [s[n]]
  {
  }

  lemma NextShift(n: nat)
    ensures (n % 8 + 1) % 8 == (n + 1) % 8
  {
  }

  /** The register loops of modbus_reply and of the client's write calls: high byte first. */
  method PutRegisters(tab: array<Word>, address: nat, nb: nat, rsp: array<Byte>, offset: nat) returns (end: nat)
    requires address + nb <= tab.Length && offset + 2 * nb <= rsp.Length
    modifies rsp
    ensures end == offset + 2 * nb
    ensures rsp[..] == Overlay(old(rsp[..]), offset, Words(old(tab[address..address + nb])))
  {
    ghost var cells: seq<Word>, before: seq<Byte>, done: seq<Byte> := tab[address..address + nb], rsp[..], [];
    end := offset;
    var i := address;
    while i < address + nb
      invariant address <= i <= address + nb && end == offset + 2 * (i - address)
      invariant tab[..] == old(tab[..])
      invariant done == Words(cells[..i - address]) && rsp[..] == Overlay(before, offset, done)
    {
      hide *;
      assert cells[i - address] == old(tab[..])[i] == tab[..][i];
      WordsSnoc(cells, i - address);
      StoreWord(rsp, end, tab[i], before, offset, done);
      done := done + [Hi(tab[i])] + [Lo(tab[i])];
      end := end + 2;
      i := i + 1;
    }
    assert cells[..nb] == cells;
  }

  lemma WordsSnoc(ws: seq<Word>, i: nat)
    requires i < |ws|
    ensures Words(ws[..i + 1]) == Words(ws[..i]) + [Hi(ws[i])] + [Lo(ws[i])]
  {
    var a, b := Words(ws[..i + 1]), Words(ws[..i]) + [Hi(ws[i])] + [Lo(ws[i])];
    forall j | 0 <= j < |a| ensures a[j] == b[j] {
      if j < 2 * i { assert ws[..i + 1][j / 2] == ws[..i][j / 2]; }
    }
  }

  // ---------- storing received values in tables ----------

  /** modbus_set_bits_from_bytes */
  method SetBitsFromBytes(dest: array<Byte>, idx: nat, nb: nat, src: array<Byte>, at: nat)
    requires idx + nb <= dest.Length && at + ByteCount(nb) <= src.Length && dest != src
    modifies dest
    ensures dest[..] == Overlay(old(dest[..]), idx, UnpackCells(src[at..], nb))
  {
    ghost var before, cells := dest[..], UnpackCells(src[at..], nb);
    var shift: nat := 0;
    var i := idx;
    while i < idx + nb
      invariant idx <= i <= idx + nb && AtShift(i - idx, shift)
      invariant dest[..] == Overlay(before, idx, cells[..i - idx])
    {
      hide *;
      UnpackAtShift(src[at..], nb, i - idx, shift);
      StoreNext(dest, i, if Bit(src[at + (i - idx) / 8], shift) then 1 else 0, before, idx, cells, i - idx);
      i := i + 1;
      shift := (shift + 1) % 8;
    }
    assert cells[..nb] == cells;
  }

  /** The running shift of the `k`-th bit. */
  ghost predicate AtShift(k: nat, shift: nat) {
    shift == k % 8
  }

  lemma UnpackAtShift(bytes: seq<Byte>, nb: nat, k: nat, shift: nat)
    requires ByteCount(nb) <= |bytes| && k < nb && AtShift(k, shift)
    ensures k / 8 < |bytes| && UnpackCells(bytes, nb)[k] == if Bit(bytes[k / 8], shift) then 1 else 0
    ensures AtShift(k + 1, (shift + 1) % 8)
  {
    NextShift(k);
  }

  lemma UnpackAt(bytes: seq<Byte>, nb: nat, i: nat)
    requires ByteCount(nb) <= |bytes| && i < nb
    ensures i / 8 < |bytes|
    ensures UnpackCells(bytes, nb)[i] == if Bit(bytes[i / 8], i % 8) then 1 else 0
  {
  }

  /** The loops that assemble registers from two bytes each. */
  method SetRegisters(dest: array<Word>, idx: nat, nb: nat, src: array<Byte>, at: nat)
    requires idx + nb <= dest.Length && at + 2 * nb <= src.Length
    modifies dest
    ensures dest[..] == Overlay(old(dest[..]), idx, ReadWords(old(src[at..]), nb))
  {
    ghost var before, values := dest[..], ReadWords(src[at..], nb);
    ghost var done := [];
    var i, j := idx, at;
    while i < idx + nb
      invariant idx <= i <= idx + nb && j == at + 2 * (i - idx) && |done| == i - idx
      invariant src[..] == old(src[..])
      invariant done == values[..i - idx] && dest[..] == Overlay(before, idx, done)
    {
      hide Overlay, Join, ReadWords;
      var value := Join(src[j], src[j + 1]);
      ReadWordsAt(old(src[..])[at..], nb, i - idx);
      assert old(src[..])[j] == src[..][j] && old(src[..])[j + 1] == src[..][j + 1];
      Store(dest, i, value, before, idx, done);
      done := done + [value];
      i, j := i + 1, j + 2;
    }
    assert values[..nb] == values;
  }

  lemma ReadWordsAt(bytes: seq<Byte>, nb: nat, i: nat)
    requires 2 * nb <= |bytes| && i < nb
    ensures ReadWords(bytes, nb)[i] == Join(bytes[2 * i], bytes[2 * i + 1])
  {
  }

  // ---------- headers and checksums ----------

  /** The header bytes in place, except the two length bytes that are filled in on sending. */
  predicate HeaderSet(b: Backend, buf: seq<Byte>, h: Header) {
    match b
    case Rtu => |buf| >= 1 && buf[0] == h.slave
    case Tcp => |buf| >= 7 && buf[..4] == [Hi(h.tid), Lo(h.tid), Hi(h.protocol), Lo(h.protocol)] && buf[6] == h.slave
  }

  /** build_response_basis of either backend. */
  method BuildResponseBasis(b: Backend, tid: Word, slave: Byte, function_: Byte, rsp: array<Byte>) returns (length: nat)
    requires rsp.Length >= 8
    modifies rsp
    ensures length == b.HeaderLength() + 1
    ensures HeaderSet(b, rsp[..], Header(tid, 0, slave)) && rsp[length - 1] == function_
    ensures rsp[length..] == old(rsp[length..])
  {
    match b
    case Rtu =>
      rsp[0] := slave;
      rsp[1] := function_;
      length := 2;
    case Tcp =>
      rsp[0], rsp[1] := Hi(tid), Lo(tid);
      rsp[2], rsp[3] := 0, 0;
      rsp[6] := slave;
      rsp[7] := function_;
      length := 8;
  }

  /** build_request_basis of either backend; the caller has advanced the transaction number. */
  method BuildRequestBasis(b: Backend, tid: Word, slave: Byte, function_: Byte, addr: Word, nb: Word, req: array<Byte>) returns (length: nat)
    requires req.Length >= 12
    modifies req
    ensures length == b.HeaderLength() + 5
    ensures HeaderSet(b, req[..], Header(tid, 0, slave)) && req[length - 5..length] == Basis(function_, addr, nb)
    ensures req[length..] == old(req[length..])
  {
    length := BuildResponseBasis(b, tid, slave, function_, req);
    req[length], req[length + 1] := Hi(addr), Lo(addr);
    req[length + 2], req[length + 3] := Hi(nb), Lo(nb);
    length := length + 4;
  }

  /** _modbus_rtu_send_msg_pre: the checksum behind the message. */
  method AppendCrc(msg: array<Byte>, length: nat, ghost h: Header) returns (total: nat)
    requires 1 <= length <= 1 + MAX_PDU_LENGTH && length + 2 <= msg.Length && msg[0] == h.slave
    modifies msg
    ensures total == length + 2 && msg[..total] == Frame(Rtu, h, old(msg[1..length]))
  {
    ghost var pdu := msg[1..length];
    assert msg[..length] == [h.slave] + pdu;
    var crc := RtuCrc.ComputeCrc16(msg, length);
    CrcParts(msg[..length]);
    msg[length], msg[length + 1] := Hi(crc), Lo(crc);
    assert msg[..length] == [h.slave] + pdu;
    total := length + 2;
    assert msg[..total] == msg[..length] + [Hi(crc), Lo(crc)];
  }

  /** _modbus_tcp_send_msg_pre: the number of bytes behind the length field, in that field. */
  method FillLength(msg: array<Byte>, length: nat, ghost h: Header)
    requires 7 <= length <= 7 + MAX_PDU_LENGTH && length <= msg.Length && HeaderSet(Tcp, msg[..], h)
    modifies msg
    ensures msg[4] as int * 256 + msg[5] as int == length - 6
    ensures msg[..length] == Frame(Tcp, h, old(msg[7..length]))
  {
    ghost var before := msg[..];
    var mbapLength: Word := length - 6;
    JoinParts(mbapLength);
    msg[4], msg[5] := Hi(mbapLength), Lo(mbapLength);
    LengthFilled(before, msg[..], length, h);
  }

  lemma LengthFilled(before: seq<Byte>, after: seq<Byte>, length: nat, h: Header)
    requires 7 <= length <= 7 + MAX_PDU_LENGTH && length <= |before| == |after| && HeaderSet(Tcp, before, h)
    requires forall i :: 0 <= i < |before| && i != 4 && i != 5 ==> after[i] == before[i]
    requires after[4] == Hi(length - 6) && after[5] == Lo(length - 6)
    ensures after[..length] == Frame(Tcp, h, before[7..length])
  {
    assert forall i :: 0 <= i < 4 ==> after[i] == before[..4][i];
    hide Hi, Lo;
  }

  /** send_msg_pre of either backend. */
  method SendMsgPre(b: Backend, msg: array<Byte>, length: nat, ghost h: Header) returns (total: nat)
    requires b.HeaderLength() <= length <= b.HeaderLength() + MAX_PDU_LENGTH && length + b.ChecksumLength() <= msg.Length
    requires HeaderSet(b, msg[..], h)
    modifies msg
    ensures total == length + b.ChecksumLength()
    ensures msg[..total] == Frame(b, h, old(msg[b.HeaderLength()..length]))
    ensures b.Tcp? ==> msg[4] as int * 256 + msg[5] as int == total - 6
  {
    hide Frame;
    match b
    case Rtu =>
      total := AppendCrc(msg, length, h);
    case Tcp =>
      FillLength(msg, length, h);
      total := length;
  }

  lemma CrcParts(msg: seq<Byte>)
    ensures [Hi(RtuCrc.Crc16(msg)), Lo(RtuCrc.Crc16(msg))] == RtuCrc.CrcBytes(msg)
  {
    hide RtuCrc.CrcBytes;
    SplitJoin(RtuCrc.CrcBytes(msg)[0], RtuCrc.CrcBytes(msg)[1]);
  }

  lemma SplitJoin(hi: Byte, lo: Byte)
    ensures Hi(Join(hi, lo)) == hi && Lo(Join(hi, lo)) == lo
  {
  }
}
