/** The capture file of apps/mstpcap, written and scanned octet by octet. */
module CaptureProcess {
  import opened Octets
  import opened FrameStatistics
  import opened FrameStatisticsProcess
  import opened Capture

  class Recorder {
    const stats: Statistics
    const checks: Checks
    var file: seq<byte> // contents of pFile
    var pos: nat
    var open: bool
    var invalidFrames: uint32

    ghost predicate Valid()
      reads this, stats, stats.stats
    {
      pos <= |file| && stats.Valid()
    }

    constructor (checks: Checks)
      ensures Valid() && fresh(stats) && fresh(stats.stats) && stats.trace == [] && open && file == []
      ensures this.checks == checks
    {
      stats := new Statistics();
      this.checks := checks;
      file, pos, open, invalidFrames := [], 0, true, 0;
    }

    /** write_received_packet. */
    method WriteReceivedPacket(time: Time, p: Port, headerLen: nat)
      requires Valid() && open && 1 <= headerLen <= HEADER_MAX && Buffered(p)
      modifies this`file, stats, stats.stats
      ensures Valid() && file == old(file) + Record(time, p, headerLen)
      ensures stats.trace == old(stats.trace) + Live(checks, [Captured(time, p)])
    {
      assert Live(checks, [Captured(time, p)][1..]) == [];
      if p.valid || p.validNotForUs {
        Count(time, p.kind, p.src, p.dst, if p.dataLength <= |p.buffer| then p.buffer[..p.dataLength] else []);
      }
      WriteRecord(time, p, headerLen);
    }

    /** packet_statistics, with the I-Am decoder for frames that hold data. */
    method Count(time: Time, kind: byte, src: byte, dst: byte, data: seq<byte>)
      requires Valid()
      modifies stats, stats.stats
      ensures Valid()
      ensures var iAm := if data != [] then checks.iAm(data) else None;
        stats.trace == old(stats.trace) + [Seen(Frame(time, kind, src, dst, iAm))]
    {
      var iAm := None;
      if |data| > 0 {
        iAm := checks.iAm(data);
      }
      stats.Packet(Frame(time, kind, src, dst, iAm));
    }

    method WriteRecord(time: Time, p: Port, headerLen: nat)
      requires 1 <= headerLen <= HEADER_MAX && Buffered(p)
      modifies this`file
      ensures file == old(file) + Record(time, p, headerLen)
    {
      WriteTimes(time);
      var maxData := WriteLengths(p, headerLen);
      file := file + Header(p, headerLen);
      assert file == old(file) + (Times(time) + Lengths(RecordLength(p, headerLen)) + Header(p, headerLen));
      WriteData(p, maxData);
    }

    method WriteTimes(time: Time)
      modifies this`file
      ensures file == old(file) + Times(time)
    {
      file := file + Field(time.sec % UINT32);
      file := file + Field(time.usec % UINT32);
    }

    method WriteLengths(p: Port, headerLen: nat) returns (maxData: nat)
      requires 1 <= headerLen <= HEADER_MAX && Buffered(p)
      modifies this`file
      ensures maxData == MaxData(p) && file == old(file) + Lengths(RecordLength(p, headerLen))
    {
      var len: nat := headerLen;
      maxData := 0;
      var received := if p.invalid then p.index else p.dataLength;
      if received != 0 {
        maxData := if |p.buffer| < received then |p.buffer| else received;
        len := headerLen + maxData + 2;
      }
      file := file + Field(len);
      file := file + Field(len);
    }

    method WriteData(p: Port, maxData: nat)
      requires maxData == MaxData(p)
      modifies this`file
      ensures file == old(file) + Data(p) + Capture.DataCrc(p)
    {
      if maxData > 0 {
        file := file + p.buffer[..maxData];
        file := file + [p.dataCrcMsb];
        file := file + [p.dataCrcLsb];
      }
    }

    /** fread of one item; a short read closes the file. */
    method FRead(size: nat) returns (r: Option<seq<byte>>)
      requires pos <= |file|
      modifies this`pos, this`open
      ensures old(pos) <= pos <= |file|
      ensures if 0 < size <= |file| - old(pos)
              then r == Some(file[old(pos)..old(pos) + size]) && pos == old(pos) + size && open == old(open)
              else r == None && !open
    {
      if 0 < size <= |file| - pos {
        r := Some(file[pos..pos + size]);
        pos := pos + size;
      } else {
        r := None;
        open := false;
      }
    }

    static lemma DropSlice(s: seq<byte>, a: nat, i: nat, j: nat)
      requires a <= |s| && i <= j <= |s| - a
      ensures s[a..][i..j] == s[a + i..a + j]
    {
    }

    /** The fields in front of the data: times, original length and header. */
    method ReadHead() returns (r: Option<(seq<byte>, seq<byte>, seq<byte>, seq<byte>)>)
      requires pos <= |file|
      modifies this`pos, this`open
      ensures pos <= |file|
      ensures var start := file[old(pos)..];
        if |start| >= 24
        then r == Some((start[0..4], start[4..8], start[12..16], start[16..24])) && pos == old(pos) + 24 && open == old(open)
        else r == None && !open
    {
      var sec := FRead(4);
      if sec.None? { return None; }
      var usec := FRead(4);
      if usec.None? { return None; }
      var inclLen := FRead(4);
      if inclLen.None? { return None; }
      var origLen := FRead(4);
      if origLen.None? { return None; }
      var header := FRead(8);
      if header.None? { return None; }
      ghost var start := file[old(pos)..];
      DropSlice(file, old(pos), 0, 4);
      DropSlice(file, old(pos), 4, 8);
      DropSlice(file, old(pos), 12, 16);
      DropSlice(file, old(pos), 16, 24);
      r := Some((sec.value, usec.value, origLen.value, header.value));
    }

    method ReadData(dataLength: nat) returns (r: Option<(seq<byte>, seq<byte>)>)
      requires pos <= |file|
      modifies this`pos, this`open
      ensures pos <= |file|
      ensures var start := file[old(pos)..];
        if dataLength > 0 && |start| >= dataLength + 2
        then r == Some((start[..dataLength], start[dataLength..dataLength + 2]))
             && pos == old(pos) + dataLength + 2 && open == old(open)
        else r == None && !open
    {
      var data := FRead(dataLength);
      if data.None? { return None; }
      var msb := FRead(1);
      if msb.None? { return None; }
      var lsb := FRead(1);
      if lsb.None? { return None; }
      ghost var start := file[old(pos)..];
      DropSlice(file, old(pos), 0, dataLength);
      assert |msb.value| == |lsb.value| == 1;
      assert msb.value[0] == file[old(pos) + dataLength] == start[dataLength];
      assert lsb.value[0] == file[old(pos) + dataLength + 1] == start[dataLength + 1];
      assert |start[dataLength..dataLength + 2]| == 2;
      assert msb.value + lsb.value == start[dataLength..dataLength + 2];
      r := Some((data.value, msb.value + lsb.value));
    }

    static lemma ReadingCloses(start: seq<byte>, bufferSize: nat)
      ensures |start| < 24 ==> ReadRecord(start, bufferSize).Closed?
      ensures |start| >= 24 && DecodeLittle(start[12..16]) > 8 ==>
        var n := (DecodeLittle(start[12..16]) - 10) % 0x1_0000;
        && (n > bufferSize ==> ReadRecord(start, bufferSize).Overrun?)
        && (n <= bufferSize && (n == 0 || |start| < 26 + n) ==> ReadRecord(start, bufferSize).Closed?)
    {
      hide DecodeLittle, PacketOf;
    }

    /** The file from a record on, cut as the reader cuts it. */
    static lemma ReadingOf(start: seq<byte>, bufferSize: nat, data: seq<byte>, dataCrc: seq<byte>)
      requires |start| >= 24
      requires var len := DecodeLittle(start[12..16]);
        if len <= 8 then data == [] && dataCrc == []
        else
          var n := (len - 10) % 0x1_0000;
          0 < n <= bufferSize && |start| >= 26 + n && data == start[24..24 + n] && dataCrc == start[24 + n..26 + n]
      ensures ReadRecord(start, bufferSize) == Got(PacketOf(start, data, dataCrc), start[24 + |data| + |dataCrc|..])
    {
      hide DecodeLittle, PacketOf;
    }

    static lemma PacketFrom(start: seq<byte>, h: seq<byte>, data: seq<byte>, dataCrc: seq<byte>)
      requires |start| >= 24 && h == start[16..24]
      ensures Packet(Time(DecodeLittle(start[0..4]), DecodeLittle(start[4..8])), h[2], h[3], h[4],
                     DecodeUnsigned16(h[5], h[6]), h[7], data, dataCrc) == PacketOf(start, data, dataCrc)
    {
      hide DecodeLittle, DecodeUnsigned16;
    }

    /** read_received_packet up to the checks.  A record with more data than the
        input buffer is read past its end. */
    method ReadPacket(bufferSize: nat) returns (r: Option<Packet>, overrun: bool)
      requires pos <= |file|
      modifies this`pos, this`open
      ensures pos <= |file|
      ensures overrun <==> ReadRecord(file[old(pos)..], bufferSize).Overrun?
      ensures match ReadRecord(file[old(pos)..], bufferSize)
              case Got(packet, rest) => r == Some(packet) && file[pos..] == rest && open == old(open)
              case Closed => r == None && !open
              case Overrun => r == None
    {
      hide DecodeLittle, DecodeUnsigned16, PacketOf, ReadRecord;
      ghost var start := file[pos..];
      overrun := false;
      ReadingCloses(start, bufferSize);
      var head := ReadHead();
      if head.None? { return None, false; }
      var (sec, usec, origLen, h) := head.value;
      var len: int, data, dataCrc := DecodeLittle(origLen), [], [];
      if len > 8 {
        var dataLength := (len - 8 - 2) % 0x1_0000;
        if dataLength > bufferSize { return None, true; }
        DropFile(file, old(pos), 24);
        var body := ReadData(dataLength);
        if body.None? { return None, false; }
        data, dataCrc := body.value.0, body.value.1;
        DropSlice(start, 24, 0, dataLength);
        DropSlice(start, 24, dataLength, dataLength + 2);
      }
      ReadingOf(start, bufferSize, data, dataCrc);
      PacketFrom(start, h, data, dataCrc);
      DropFile(file, old(pos), 24 + |data| + |dataCrc|);
      r := Some(Packet(Time(DecodeLittle(sec), DecodeLittle(usec)), h[2], h[3], h[4], DecodeUnsigned16(h[5], h[6]), h[7],
                       data, dataCrc));
    }

    static lemma DropFile(s: seq<byte>, a: nat, b: nat)
      requires a + b <= |s|
      ensures s[a..][b..] == s[a + b..]
    {
    }

    /** The CRC loop over octets 2 to 7 of the header. */
    method HeaderCrc(octets: seq<byte>) returns (crc: byte)
      ensures crc == HeaderSum(checks, octets, 0xFF)
    {
      crc := 0xFF;
      var i := 0;
      assert octets[0..] == octets;
      while i < |octets|
        invariant 0 <= i <= |octets| && HeaderSum(checks, octets, 0xFF) == HeaderSum(checks, octets[i..], crc)
      {
        assert octets[i..][1..] == octets[i + 1..];
        crc := checks.header(octets[i], crc);
        i := i + 1;
      }
    }

    method DataCrcOf(octets: seq<byte>) returns (crc: uint16)
      ensures crc == DataSum(checks, octets, 0xFFFF)
    {
      crc := 0xFFFF;
      var i := 0;
      assert octets[0..] == octets;
      while i < |octets|
        invariant 0 <= i <= |octets| && DataSum(checks, octets, 0xFFFF) == DataSum(checks, octets[i..], crc)
      {
        assert octets[i..][1..] == octets[i + 1..];
        crc := checks.data(octets[i], crc);
        i := i + 1;
      }
    }

    /** read_received_packet: an accepted packet counts in the statistics. */
    method ReadReceivedPacket(bufferSize: nat) returns (r: Option<Packet>, overrun: bool)
      requires Valid()
      modifies this`pos, this`open, this`invalidFrames, stats, stats.stats
      ensures Valid()
      ensures overrun <==> ReadRecord(file[old(pos)..], bufferSize).Overrun?
      ensures match ReadRecord(file[old(pos)..], bufferSize)
              case Got(packet, rest) =>
                && r == Some(packet) && file[pos..] == rest && open == old(open)
                && stats.trace == old(stats.trace) + Replayed(checks, [packet])
                && invalidFrames == (old(invalidFrames) + if Accepted(checks, packet) then 0 else 1) % UINT32
              case _ =>
                && r == None && (overrun || !open)
                && stats.trace == old(stats.trace) && invalidFrames == old(invalidFrames)
    {
      hide ReadRecord, Accepted, StationAfter, ContextAfter;
      r, overrun := ReadPacket(bufferSize);
      if r.None? {
        return;
      }
      var q := r.value;
      var valid := Check(q);
      assert Replayed(checks, []) == [];
      if valid {
        Count(q.time, q.kind, q.src, q.dst, q.data);
      } else {
        invalidFrames := (invalidFrames + 1) % UINT32;
      }
    }

    method Check(q: Packet) returns (valid: bool)
      ensures valid == Accepted(checks, q)
    {
      var headerCrc := HeaderCrc([q.kind, q.dst, q.src, q.dataLength / 256, q.dataLength % 256, q.headerCrc]);
      valid := headerCrc == 0x55;
      if q.data != [] {
        var dataCrc := DataCrcOf(q.data + q.dataCrc);
        valid := dataCrc == 0xF0B8;
      }
    }

    /** Some record holds more data than the input buffer. */
    static ghost predicate Overruns(file: seq<byte>, bufferSize: nat)
      decreases |file|
    {
      match ReadRecord(file, bufferSize)
      case Got(_, rest) => Overruns(rest, bufferSize)
      case Closed => false
      case Overrun => true
    }

    /** The scan option: the statistics are those of all packets in the file, up
        to a record that overruns the input buffer. */
    method Scan(bufferSize: nat) returns (packets: seq<Packet>, overrun: bool)
      requires Valid() && open
      modifies this`pos, this`open, this`invalidFrames, stats, stats.stats
      ensures Valid() && packets == ReadAll(file[old(pos)..], bufferSize)
      ensures overrun <==> Overruns(file[old(pos)..], bufferSize)
      ensures stats.trace == old(stats.trace) + Replayed(checks, packets)
    {
      hide ReadRecord, ReadAll, Overruns, Replayed, StationAfter, ContextAfter;
      packets, overrun := [], false;
      NoPackets();
      ghost var all, overruns := ReadAll(file[pos..], bufferSize), Overruns(file[pos..], bufferSize);
      while open && !overrun
        invariant Valid()
        invariant open && !overrun ==>
          overruns == Overruns(file[pos..], bufferSize) && all == packets + ReadAll(file[pos..], bufferSize)
        invariant !open || overrun ==> all == packets && overrun == overruns
        invariant stats.trace == old(stats.trace) + Replayed(checks, packets)
        decreases if open && !overrun then 1 + |file| - pos else 0
      {
        ScanNext(file[pos..], bufferSize);
        var r;
        r, overrun := ReadReceivedPacket(bufferSize);
        if r.Some? {
          ReplayAppend(packets, r.value);
          ghost var rest := ReadAll(file[pos..], bufferSize);
          assert packets + ([r.value] + rest) == packets + [r.value] + rest;
          packets := packets + [r.value];
        } else {
          assert all == packets;
        }
      }
    }

    lemma NoPackets()
      ensures Replayed(checks, []) == []
    {
    }

    static lemma ScanNext(file: seq<byte>, bufferSize: nat)
      ensures match ReadRecord(file, bufferSize)
              case Got(packet, rest) =>
                && ReadAll(file, bufferSize) == [packet] + ReadAll(rest, bufferSize)
                && Overruns(file, bufferSize) == Overruns(rest, bufferSize)
              case Closed => ReadAll(file, bufferSize) == [] && !Overruns(file, bufferSize)
              case Overrun => ReadAll(file, bufferSize) == [] && Overruns(file, bufferSize)
    {
      hide ReadRecord;
    }

    lemma {:induction false} ReplayAppend(packets: seq<Packet>, q: Packet)
      ensures Replayed(checks, packets + [q]) == Replayed(checks, packets) + Replayed(checks, [q])
    {
      hide Accepted, FrameOf;
      if packets == [] {
        assert packets + [q] == [q] && Replayed(checks, packets) == [];
      } else {
        var rest := packets[1..];
        assert (packets + [q])[1..] == rest + [q] && (packets + [q])[0] == packets[0];
        ReplayAppend(rest, q);
        var first := if Accepted(checks, packets[0]) then [Seen(FrameOf(checks, packets[0]))] else [];
        assert Replayed(checks, packets) == first + Replayed(checks, rest);
        assert Replayed(checks, packets + [q]) == first + Replayed(checks, rest + [q]);
      }
    }
  }
}
