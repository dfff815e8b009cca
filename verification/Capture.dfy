/** Capture files of apps/mstpcap: what is written for a received frame and
    what is read back; see Replay for what a replayed capture counts. */
module Capture {
  import opened Octets
  import opened FrameStatistics

  const HEADER_MAX := 8
  const RECORD_HEADER := 16

  /** The receive state of the MS/TP port, as far as the capture uses it. */
  datatype Port = Port(
    valid: bool, validNotForUs: bool, invalid: bool, index: uint32, dataLength: uint16, buffer: seq<byte>,
    kind: byte, dst: byte, src: byte, headerCrc: byte, dataCrcMsb: byte, dataCrcLsb: byte, dataRegister: byte)

  /** A 32-bit field in host order, the least significant octet first. */
  function Field(n: uint32): (r: seq<byte>)
    ensures |r| == 4
  {
    EncodeLittle(n, 4)
  }

  lemma FieldRoundTrip(n: uint32)
    ensures DecodeLittle(Field(n)) == n
  {
    Fits32(n);
    LittleRoundTrip(n, 4);
  }

  lemma FieldOctets(n: uint32)
    ensures Field(n) == [n % 0x100, n / 0x100 % 0x100, n / 0x1_0000 % 0x100, n / 0x100_0000]
  {
    assert EncodeLittle(n / 0x100, 3) == [n / 0x100 % 0x100] + EncodeLittle(n / 0x100 / 0x100, 2);
    assert EncodeLittle(n / 0x1_0000, 2) == [n / 0x1_0000 % 0x100] + EncodeLittle(n / 0x1_0000 / 0x100, 1);
    assert EncodeLittle(n / 0x100_0000, 1) == [n / 0x100_0000 % 0x100] + EncodeLittle(n / 0x100_0000 / 0x100, 0);
  }

  // ---- Writing ----

  /** The octets received: of an invalid frame, as far as it came. */
  function Received(p: Port): nat {
    if p.invalid then p.index else p.dataLength
  }

  function MaxData(p: Port): nat {
    if |p.buffer| < Received(p) then |p.buffer| else Received(p)
  }

  function Data(p: Port): seq<byte> {
    p.buffer[..MaxData(p)]
  }

  function DataCrc(p: Port): seq<byte> {
    if MaxData(p) > 0 then [p.dataCrcMsb, p.dataCrcLsb] else []
  }

  function Header(p: Port, headerLen: nat): seq<byte>
    requires 1 <= headerLen <= HEADER_MAX
  {
    if headerLen == 1 then [p.dataRegister]
    else if headerLen == 2 then [0x55, p.dataRegister]
    else [0x55, 0xFF, p.kind, p.dst, p.src, p.dataLength / 256, p.dataLength % 256, p.headerCrc][..headerLen]
  }

  function RecordLength(p: Port, headerLen: nat): nat {
    if Received(p) != 0 then headerLen + MaxData(p) + 2 else headerLen
  }

  /** InputBufferSize is a 16-bit field. */
  predicate Buffered(p: Port) {
    |p.buffer| < 0x1_0000
  }

  function Record(time: Time, p: Port, headerLen: nat): seq<byte>
    requires 1 <= headerLen <= HEADER_MAX && Buffered(p)
  {
    var len := RecordLength(p, headerLen);
    Times(time) + Lengths(len) + Header(p, headerLen) + Data(p) + DataCrc(p)
  }

  function Times(time: Time): seq<byte> {
    Field(time.sec % UINT32) + Field(time.usec % UINT32)
  }

  /** The octets in the file, and those of the frame: the same number. */
  function Lengths(len: uint32): seq<byte> {
    Field(len) + Field(len)
  }

  // ---- Reading ----

  datatype Packet = Packet(time: Time, kind: byte, dst: byte, src: byte, dataLength: uint16, headerCrc: byte,
                           data: seq<byte>, dataCrc: seq<byte>)

  /** Overrun: the record holds more data than the input buffer. */
  datatype Reading = Closed | Overrun | Got(packet: Packet, rest: seq<byte>)

  function PacketOf(file: seq<byte>, data: seq<byte>, dataCrc: seq<byte>): Packet
    requires |file| >= RECORD_HEADER + HEADER_MAX
  {
    Packet(Time(DecodeLittle(file[0..4]), DecodeLittle(file[4..8])), file[18], file[19], file[20],
           DecodeUnsigned16(file[21], file[22]), file[23], data, dataCrc)
  }

  function ReadRecord(file: seq<byte>, bufferSize: nat): (r: Reading)
    ensures r.Got? ==> |r.rest| < |file|
  {
    if |file| < RECORD_HEADER + HEADER_MAX then Closed
    else
      var len := DecodeLittle(file[12..16]);
      if len <= 8 then Got(PacketOf(file, [], []), file[24..])
      else
        var n := (len - 10) % 0x1_0000;
        if n > bufferSize then Overrun
        else if n == 0 || |file| < 26 + n then Closed // fread of nothing returns 0
        else Got(PacketOf(file, file[24..24 + n], file[24 + n..26 + n]), file[26 + n..])
  }

  /** `while (read_received_packet(...))` of the scan option. */
  function ReadAll(file: seq<byte>, bufferSize: nat): seq<Packet>
    decreases |file|
  {
    match ReadRecord(file, bufferSize)
    case Got(packet, rest) => [packet] + ReadAll(rest, bufferSize)
    case Closed => []
    case Overrun => []
  }

  // ---- Round trips ----

  function Written(time: Time, p: Port): Packet {
    Packet(Time(time.sec % UINT32, time.usec % UINT32), p.kind, p.dst, p.src, p.dataLength, p.headerCrc,
           Data(p), DataCrc(p))
  }

  ghost predicate Fits(p: Port, bufferSize: nat) {
    0 < |p.buffer| <= bufferSize && Buffered(p)
  }

  lemma JoinParts(a: seq<byte>, b: seq<byte>, h: seq<byte>, d: seq<byte>)
    ensures var r := a + b + h + d;
      && r[..|a|] == a
      && r[|a|..|a| + |b|] == b
      && r[|a| + |b|..|a| + |b| + |h|] == h
      && r[|a| + |b| + |h|..] == d
  {
  }

  lemma RecordParts(time: Time, p: Port, headerLen: nat)
    requires 1 <= headerLen <= HEADER_MAX && Buffered(p)
    ensures var r := Record(time, p, headerLen);
      && |r| == RECORD_HEADER + headerLen + |Data(p)| + |DataCrc(p)|
      && r[0..4] == Field(time.sec % UINT32)
      && r[4..8] == Field(time.usec % UINT32)
      && r[8..12] == r[12..16] == Field(RecordLength(p, headerLen))
      && r[16..16 + headerLen] == Header(p, headerLen)
      && r[16 + headerLen..] == Data(p) + DataCrc(p)
  {
    var r, len := Record(time, p, headerLen), RecordLength(p, headerLen);
    var t, l, h, d := Times(time), Lengths(len), Header(p, headerLen), Data(p) + DataCrc(p);
    assert r == t + l + h + d;
    JoinParts(t, l, h, d);
    assert r[0..4] == r[..8][0..4] && r[4..8] == r[..8][4..8];
    assert r[8..12] == r[8..16][0..4] && r[12..16] == r[8..16][4..8];
  }

  lemma RecordSize(p: Port)
    requires 0 < |p.buffer| && Buffered(p)
    ensures var len := RecordLength(p, HEADER_MAX);
      if MaxData(p) == 0 then len == 8 else len > 8 && (len - 10) % 0x1_0000 == MaxData(p)
  {
  }

  /** The parts of a record as the reader cuts them out of the file. */
  lemma FileParts(time: Time, p: Port, rest: seq<byte>)
    requires Buffered(p)
    ensures var file, n := Record(time, p, HEADER_MAX) + rest, MaxData(p);
      && |file| == 24 + n + |DataCrc(p)| + |rest|
      && DecodeLittle(file[0..4]) == time.sec % UINT32
      && DecodeLittle(file[4..8]) == time.usec % UINT32
      && DecodeLittle(file[12..16]) == RecordLength(p, HEADER_MAX)
      && file[24..24 + n] == Data(p)
      && file[24 + n..24 + n + |DataCrc(p)|] == DataCrc(p)
      && file[24 + n + |DataCrc(p)|..] == rest
  {
    var r, n := Record(time, p, HEADER_MAX), MaxData(p);
    var file := r + rest;
    RecordParts(time, p, HEADER_MAX);
    assert file[0..4] == r[0..4] && file[4..8] == r[4..8] && file[12..16] == r[12..16];
    FieldRoundTrip(time.sec % UINT32);
    FieldRoundTrip(time.usec % UINT32);
    FieldRoundTrip(RecordLength(p, HEADER_MAX));
    assert file[24..24 + n] == r[24..][..n];
    assert file[24 + n..24 + n + |DataCrc(p)|] == r[24..][n..];
  }

  /** A record with a full header is read back, and reading stops at its end. */
  lemma RecordRoundTrip(time: Time, p: Port, bufferSize: nat, rest: seq<byte>)
    requires Fits(p, bufferSize)
    ensures ReadRecord(Record(time, p, HEADER_MAX) + rest, bufferSize) == Got(Written(time, p), rest)
  {
    var r := Record(time, p, HEADER_MAX);
    FileParts(time, p, rest);
    RecordParts(time, p, HEADER_MAX);
    HeaderOctets(p, r + rest, r);
    RecordSize(p);
  }

  lemma HeaderOctets(p: Port, file: seq<byte>, r: seq<byte>)
    requires |r| >= 24 && r[16..24] == Header(p, HEADER_MAX) && r <= file
    ensures file[18] == p.kind && file[19] == p.dst && file[20] == p.src
    ensures DecodeUnsigned16(file[21], file[22]) == p.dataLength && file[23] == p.headerCrc
  {
    forall i | 0 <= i < 8 ensures file[16 + i] == Header(p, HEADER_MAX)[i] {
      assert r[16..24][i] == r[16 + i];
    }
  }

  lemma CutRecord(time: Time, p: Port, bufferSize: nat, n: nat)
    requires Fits(p, bufferSize) && n < |Record(time, p, HEADER_MAX)|
    ensures ReadRecord(Record(time, p, HEADER_MAX)[..n], bufferSize) == Closed
  {
    if n >= 24 {
      var r := Record(time, p, HEADER_MAX);
      RecordParts(time, p, HEADER_MAX);
      FieldRoundTrip(RecordLength(p, HEADER_MAX));
      assert r[..n][12..16] == r[12..16];
      RecordSize(p);
    }
  }

  /** The record is read as the packet if it is whole, and not at all if not. */
  ghost predicate Reads(record: seq<byte>, packet: Packet, bufferSize: nat) {
    && (forall rest :: ReadRecord(record + rest, bufferSize) == Got(packet, rest))
    && (forall n :: 0 <= n < |record| ==> ReadRecord(record[..n], bufferSize) == Closed)
  }

  ghost predicate ReadAs(records: seq<seq<byte>>, packets: seq<Packet>, bufferSize: nat) {
    |records| == |packets| && forall i :: 0 <= i < |records| ==> Reads(records[i], packets[i], bufferSize)
  }

  function Concat(records: seq<seq<byte>>): seq<byte> {
    if records == [] then [] else records[0] + Concat(records[1..])
  }

  /** How many records lie wholly within the first `n` octets. */
  function Whole(records: seq<seq<byte>>, n: nat): (k: nat)
    ensures k <= |records|
  {
    if records == [] || n < |records[0]| then 0 else 1 + Whole(records[1..], n - |records[0]|)
  }

  lemma ReadAllWhole(record: seq<byte>, packet: Packet, bufferSize: nat, rest: seq<byte>)
    requires Reads(record, packet, bufferSize)
    ensures ReadAll(record + rest, bufferSize) == [packet] + ReadAll(rest, bufferSize)
  {
  }

  lemma ReadAllCut(record: seq<byte>, packet: Packet, bufferSize: nat, n: nat)
    requires Reads(record, packet, bufferSize) && n < |record|
    ensures ReadAll(record[..n], bufferSize) == []
  {
  }

  /** A capture that was cut off anywhere is read back as exactly the records
      that are in it whole, in order. */
  lemma {:induction false} CutRoundTrip(records: seq<seq<byte>>, packets: seq<Packet>, bufferSize: nat, n: nat)
    requires ReadAs(records, packets, bufferSize) && n <= |Concat(records)|
    ensures ReadAll(Concat(records)[..n], bufferSize) == packets[..Whole(records, n)]
  {
    hide ReadRecord;
    if records == [] {
    } else {
      var r, rest, k := records[0], Concat(records[1..]), Whole(records, n);
      if n < |r| {
        assert (r + rest)[..n] == r[..n];
        ReadAllCut(r, packets[0], bufferSize, n);
      } else {
        assert (r + rest)[..n] == r + rest[..n - |r|];
        ReadAllWhole(r, packets[0], bufferSize, rest[..n - |r|]);
        CutRoundTrip(records[1..], packets[1..], bufferSize, n - |r|);
        assert packets[..k] == [packets[0]] + packets[1..][..k - 1];
      }
    }
  }

  lemma {:induction false} WholeFile(records: seq<seq<byte>>)
    ensures Whole(records, |Concat(records)|) == |records|
  {
    if records == [] {
    } else {
      WholeFile(records[1..]);
    }
  }

  datatype Captured = Captured(time: Time, port: Port)

  ghost predicate AllFit(cs: seq<Captured>, bufferSize: nat) {
    forall c <- cs :: Fits(c.port, bufferSize)
  }

  ghost function RecordsOf(cs: seq<Captured>, bufferSize: nat): seq<seq<byte>>
    requires AllFit(cs, bufferSize)
  {
    seq(|cs|, i requires 0 <= i < |cs| && AllFit(cs, bufferSize) => Record(cs[i].time, cs[i].port, HEADER_MAX))
  }

  function WrittenAll(cs: seq<Captured>): seq<Packet> {
    seq(|cs|, i requires 0 <= i < |cs| => Written(cs[i].time, cs[i].port))
  }

  lemma {:induction false} RecordsAreRead(cs: seq<Captured>, bufferSize: nat)
    requires AllFit(cs, bufferSize)
    ensures ReadAs(RecordsOf(cs, bufferSize), WrittenAll(cs), bufferSize)
  {
    forall i | 0 <= i < |cs| ensures Reads(RecordsOf(cs, bufferSize)[i], WrittenAll(cs)[i], bufferSize) {
      RecordIsRead(cs[i].time, cs[i].port, bufferSize);
    }
  }

  lemma RecordIsRead(time: Time, p: Port, bufferSize: nat)
    requires Fits(p, bufferSize)
    ensures Reads(Record(time, p, HEADER_MAX), Written(time, p), bufferSize)
  {
    forall rest ensures ReadRecord(Record(time, p, HEADER_MAX) + rest, bufferSize) == Got(Written(time, p), rest) {
      RecordRoundTrip(time, p, bufferSize, rest);
    }
    forall n | 0 <= n < |Record(time, p, HEADER_MAX)|
      ensures ReadRecord(Record(time, p, HEADER_MAX)[..n], bufferSize) == Closed
    {
      CutRecord(time, p, bufferSize, n);
    }
  }

  /** A capture of full-header frames is read back as it was received, and one
      that was cut off as the frames that are in it whole. */
  lemma {:induction false} CaptureRoundTrip(cs: seq<Captured>, bufferSize: nat, n: nat)
    requires AllFit(cs, bufferSize)
    ensures var file := Concat(RecordsOf(cs, bufferSize));
      && ReadAll(file, bufferSize) == WrittenAll(cs)
      && (n <= |file| ==> ReadAll(file[..n], bufferSize) == WrittenAll(cs)[..Whole(RecordsOf(cs, bufferSize), n)])
  {
    var records := RecordsOf(cs, bufferSize);
    var file := Concat(records);
    RecordsAreRead(cs, bufferSize);
    CutRoundTrip(records, WrittenAll(cs), bufferSize, |file|);
    WholeFile(records);
    assert file[..|file|] == file;
    if n <= |file| {
      CutRoundTrip(records, WrittenAll(cs), bufferSize, n);
    }
  }

  /** A frame without data is read to the end of its record if and only if its
      header was written in full: the reader always takes eight octets. */
  lemma {:induction false} AlignedIffFullHeader(time: Time, p: Port, headerLen: nat, bufferSize: nat, rest: seq<byte>)
    requires Fits(p, bufferSize) && 1 <= headerLen <= HEADER_MAX && Received(p) == 0 && |rest| >= HEADER_MAX
    ensures var r := ReadRecord(Record(time, p, headerLen) + rest, bufferSize);
      r.Got? && (r.rest == rest <==> headerLen == HEADER_MAX)
  {
    RecordParts(time, p, headerLen);
    FieldRoundTrip(headerLen);
    var r := Record(time, p, headerLen);
    assert (r + rest)[12..16] == r[12..16];
    assert headerLen == HEADER_MAX ==> (r + rest)[24..] == rest;
  }

  // ---- What counts, live and read back ----

  /** The CRC routines of the data link layer, and the I-Am decoder. */
  datatype Checks = Checks(header: (byte, byte) -> byte, data: (byte, uint16) -> uint16, iAm: seq<byte> -> Option<uint32>)

  function HeaderSum(checks: Checks, octets: seq<byte>, crc: byte): byte {
    if octets == [] then crc else HeaderSum(checks, octets[1..], checks.header(octets[0], crc))
  }

  function DataSum(checks: Checks, octets: seq<byte>, crc: uint16): uint16 {
    if octets == [] then crc else DataSum(checks, octets[1..], checks.data(octets[0], crc))
  }

  /** Whether a packet read from a file counts: by its data CRC if it has data,
      whatever its header CRC, and by its header CRC otherwise. */
  function Accepted(checks: Checks, q: Packet): bool {
    if q.data != [] then DataSum(checks, q.data + q.dataCrc, 0xFFFF) == 0xF0B8
    else HeaderSum(checks, [q.kind, q.dst, q.src, q.dataLength / 256, q.dataLength % 256, q.headerCrc], 0xFF) == 0x55
  }

  function FrameOf(checks: Checks, q: Packet): Frame {
    Frame(q.time, q.kind, q.src, q.dst, if q.data != [] then checks.iAm(q.data) else None)
  }

  function Replayed(checks: Checks, qs: seq<Packet>): seq<Event> {
    if qs == [] then []
    else (if Accepted(checks, qs[0]) then [Seen(FrameOf(checks, qs[0]))] else []) + Replayed(checks, qs[1..])
  }

  /** The frames that counted while the capture was made. */
  function Live(checks: Checks, cs: seq<Captured>): seq<Event> {
    if cs == [] then []
    else (if cs[0].port.valid || cs[0].port.validNotForUs then [Seen(LiveFrame(checks, cs[0]))] else [])
         + Live(checks, cs[1..])
  }

  function LiveFrame(checks: Checks, c: Captured): Frame {
    var p := c.port;
    Frame(c.time, p.kind, p.src, p.dst,
          if 0 < p.dataLength <= |p.buffer| then checks.iAm(p.buffer[..p.dataLength]) else None)
  }
}
