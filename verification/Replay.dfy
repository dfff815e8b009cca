/** A capture that is scanned again: what the MS/TP receiver (mstp.c) made of
    each frame, and exactly when the reader of its record comes to the same. */
module Replay {
  import opened Octets
  import opened FrameStatistics
  import opened Capture

  // ---- Receiving a frame, from its second preamble octet on ----

  datatype Phase = InHeader | InData | SkipData | Idle

  datatype Receiver = Receiver(phase: Phase, headerCrc: byte, dataCrc: uint16, port: Port)

  const THIS_STATION: byte := 127
  const MSTP_BROADCAST: byte := 255

  predicate ForUs(p: Port) {
    p.dst == THIS_STATION || p.dst == MSTP_BROADCAST
  }

  function Begin(p: Port): Receiver {
    Receiver(InHeader, 0xFF, 0xFFFF, p.(index := 0))
  }

  /** After the header CRC octet. */
  function HeaderEnds(r: Receiver): Receiver {
    var p := r.port;
    if r.headerCrc != 0x55 then r.(phase := Idle, port := p.(invalid := true))
    else if p.dataLength == 0 then
      r.(phase := Idle, port := if ForUs(p) then p.(valid := true) else p.(validNotForUs := true))
    else
      r.(phase := if ForUs(p) && p.dataLength <= |p.buffer| then InData else SkipData,
         dataCrc := 0xFFFF, port := p.(index := 0))
  }

  function HeaderOctet(checks: Checks, r: Receiver, b: byte): Receiver {
    var c := r.(headerCrc := checks.header(b, r.headerCrc));
    var p := r.port;
    if p.index == 0 then c.(port := p.(kind := b, index := 1))
    else if p.index == 1 then c.(port := p.(dst := b, index := 2))
    else if p.index == 2 then c.(port := p.(src := b, index := 3))
    else if p.index == 3 then c.(port := p.(dataLength := b * 256, index := 4))
    else if p.index == 4 then c.(port := p.(dataLength := (p.dataLength + b) % 0x1_0000, index := 5))
    else if p.index == 5 then HeaderEnds(c.(port := p.(headerCrc := b)))
    else r.(phase := Idle, port := p.(invalid := true))
  }

  function DataOctet(checks: Checks, r: Receiver, b: byte): Receiver {
    var c := r.(dataCrc := checks.data(b, r.dataCrc));
    var p := r.port;
    if p.index < p.dataLength then
      c.(phase := InData,
         port := p.(buffer := if p.index < |p.buffer| then p.buffer[p.index := b] else p.buffer, index := p.index + 1))
    else if p.index == p.dataLength then c.(phase := InData, port := p.(dataCrcMsb := b, index := p.index + 1))
    else if p.index == p.dataLength + 1 then
      var done := p.(dataCrcLsb := b);
      c.(phase := Idle,
         port := if c.dataCrc != 0xF0B8 then done.(invalid := true)
                 else if r.phase.InData? then done.(valid := true) else done.(validNotForUs := true))
    else r.(phase := Idle, port := p.(invalid := true))
  }

  function Octet(checks: Checks, r: Receiver, b: byte): Receiver {
    match r.phase
    case InHeader => HeaderOctet(checks, r, b)
    case InData => DataOctet(checks, r, b)
    case SkipData => DataOctet(checks, r, b)
    case Idle => r
  }

  function Heard(checks: Checks, p: Port, octets: seq<byte>): Receiver {
    if octets == [] then Begin(p)
    else Octet(checks, Heard(checks, p, octets[..|octets| - 1]), octets[|octets| - 1])
  }

  /** Octets that the receiver took for one frame; `before` is what earlier ones
      left in its variables.  The frame is complete, or silence or a receive
      error cut it. */
  datatype Reception = Reception(time: Time, before: Port, octets: seq<byte>, cut: bool)

  /** The clock fits its fields. */
  predicate Timely(time: Time) {
    0 <= time.sec < UINT32 && 0 <= time.usec < UINT32
  }

  ghost predicate IsReception(checks: Checks, x: Reception) {
    && !x.before.valid && !x.before.validNotForUs && !x.before.invalid && 0 < |x.before.buffer| < 0x1_0000
    && Timely(x.time)
    && (forall n :: 0 <= n < |x.octets| ==> !Heard(checks, x.before, x.octets[..n]).phase.Idle?)
    && (Heard(checks, x.before, x.octets).phase.Idle? <==> !x.cut)
  }

  /** The port as write_received_packet finds it.  main() clears the index of an
      invalid frame whose last turn was in the header. */
  function Final(checks: Checks, x: Reception): Port {
    var n := |x.octets|;
    var p := Heard(checks, x.before, x.octets).port;
    var last := if x.cut || n == 0 then Heard(checks, x.before, x.octets) else Heard(checks, x.before, x.octets[..n - 1]);
    var q := if x.cut then p.(invalid := true) else p;
    if q.invalid && last.phase.InHeader? then q.(index := 0) else q
  }

  function CapturedOf(checks: Checks, x: Reception): Captured {
    Captured(x.time, Final(checks, x))
  }

  // ---- The receiver's verdict from the octets ----

  const HEADER_OCTETS := 6

  function HeaderOf(p: Port): seq<byte> {
    [p.kind, p.dst, p.src, p.dataLength / 256, p.dataLength % 256, p.headerCrc]
  }

  /** The header fields once the octets of it, if less than all, are in. */
  function HeaderSoFar(p: Port, octets: seq<byte>): Port
    requires |octets| < HEADER_OCTETS
  {
    var n := |octets|;
    p.(kind := if n > 0 then octets[0] else p.kind,
       dst := if n > 1 then octets[1] else p.dst,
       src := if n > 2 then octets[2] else p.src,
       dataLength := if n > 4 then DecodeUnsigned16(octets[3], octets[4]) else if n > 3 then octets[3] * 256 else p.dataLength)
  }

  predicate GoodHeader(checks: Checks, octets: seq<byte>)
    requires |octets| >= HEADER_OCTETS
  {
    HeaderSum(checks, octets[..HEADER_OCTETS], 0xFF) == 0x55
  }

  function Announced(octets: seq<byte>): uint16
    requires |octets| >= HEADER_OCTETS
  {
    DecodeUnsigned16(octets[3], octets[4])
  }

  lemma {:induction false} HeaderSumAppend(checks: Checks, octets: seq<byte>, b: byte, crc: byte)
    ensures HeaderSum(checks, octets + [b], crc) == checks.header(b, HeaderSum(checks, octets, crc))
  {
    if octets == [] {
      assert [b][1..] == [];
    } else {
      assert (octets + [b])[1..] == octets[1..] + [b];
      HeaderSumAppend(checks, octets[1..], b, checks.header(octets[0], crc));
    }
  }

  lemma {:induction false} DataSumAppend(checks: Checks, octets: seq<byte>, b: byte, crc: uint16)
    ensures DataSum(checks, octets + [b], crc) == checks.data(b, DataSum(checks, octets, crc))
  {
    if octets == [] {
      assert [b][1..] == [];
    } else {
      assert (octets + [b])[1..] == octets[1..] + [b];
      DataSumAppend(checks, octets[1..], b, checks.data(octets[0], crc));
    }
  }

  lemma {:induction false} HeaderHeard(checks: Checks, p: Port, octets: seq<byte>)
    requires |octets| < HEADER_OCTETS
    ensures Heard(checks, p, octets)
         == Receiver(InHeader, HeaderSum(checks, octets, 0xFF), 0xFFFF, HeaderSoFar(p, octets).(index := |octets|))
  {
    if octets == [] {
    } else {
      var shorter, b := octets[..|octets| - 1], octets[|octets| - 1];
      HeaderHeard(checks, p, shorter);
      HeaderSumAppend(checks, shorter, b, 0xFF);
      assert octets == shorter + [b];
    }
  }

  /** The header fields of a whole header. */
  function WithHeader(p: Port, octets: seq<byte>): Port
    requires |octets| >= HEADER_OCTETS
  {
    p.(kind := octets[0], dst := octets[1], src := octets[2], dataLength := Announced(octets), headerCrc := octets[5])
  }

  lemma WholeHeaderHeard(checks: Checks, p: Port, octets: seq<byte>)
    requires |octets| == HEADER_OCTETS
    ensures Heard(checks, p, octets)
         == HeaderEnds(Receiver(InHeader, HeaderSum(checks, octets, 0xFF), 0xFFFF, WithHeader(p, octets).(index := 5)))
  {
    var shorter, b := octets[..5], octets[5];
    HeaderHeard(checks, p, shorter);
    HeaderSumAppend(checks, shorter, b, 0xFF);
    assert octets == shorter + [b];
  }

  function Min(a: nat, b: nat): nat {
    if a < b then a else b
  }

  /** The input buffer with data octets over what it held before. */
  function Over(buffer: seq<byte>, data: seq<byte>): (r: seq<byte>)
    ensures |r| == |buffer|
  {
    seq(|buffer|, i requires 0 <= i < |buffer| => if i < |data| then data[i] else buffer[i])
  }

  /** Data octets, one by one; the last two are the CRC. */
  function DataPort(p: Port, octets: seq<byte>): Port
    requires |octets| >= HEADER_OCTETS
  {
    var data, n := octets[HEADER_OCTETS..], Announced(octets);
    WithHeader(p, octets).(
      buffer := Over(p.buffer, data[..Min(|data|, n)]),
      dataCrcMsb := if |data| > n then data[n] else p.dataCrcMsb,
      dataCrcLsb := if |data| > n + 1 then data[n + 1] else p.dataCrcLsb)
  }

  lemma {:induction false} DataHeard(checks: Checks, p: Port, octets: seq<byte>)
    requires |octets| >= HEADER_OCTETS && GoodHeader(checks, octets)
    requires 0 < Announced(octets) && |octets| <= HEADER_OCTETS + Announced(octets) + 1
    ensures var r := Heard(checks, p, octets); var data := octets[HEADER_OCTETS..];
      && (r.phase.InData? || (r.phase.SkipData? && data == []))
      && r.dataCrc == DataSum(checks, data, 0xFFFF)
      && r.port == DataPort(p, octets).(index := |data|)
    decreases |octets|
  {
    if |octets| == HEADER_OCTETS {
      assert octets[..HEADER_OCTETS] == octets;
      WholeHeaderHeard(checks, p, octets);
      assert Over(p.buffer, []) == p.buffer;
    } else {
      var shorter, b := octets[..|octets| - 1], octets[|octets| - 1];
      assert shorter[..HEADER_OCTETS] == octets[..HEADER_OCTETS];
      DataHeard(checks, p, shorter);
      DataStep(checks, p, shorter, b);
      assert octets == shorter + [b];
    }
  }

  lemma DataStep(checks: Checks, p: Port, octets: seq<byte>, b: byte)
    requires |octets| >= HEADER_OCTETS && |octets| <= HEADER_OCTETS + Announced(octets)
    ensures var data := octets[HEADER_OCTETS..]; var longer := octets + [b];
      var r := Receiver(InData, 0, DataSum(checks, data, 0xFFFF), DataPort(p, octets).(index := |data|));
      && longer[HEADER_OCTETS..] == data + [b]
      && DataOctet(checks, r, b).phase.InData?
      && DataOctet(checks, r, b).dataCrc == DataSum(checks, data + [b], 0xFFFF)
      && DataOctet(checks, r, b).port == DataPort(p, longer).(index := |data| + 1)
  {
    var data, longer, n := octets[HEADER_OCTETS..], octets + [b], Announced(octets);
    assert longer[HEADER_OCTETS..] == data + [b];
    DataSumAppend(checks, data, b, 0xFFFF);
    if |data| < n {
      assert data[..Min(|data|, n)] == data && (data + [b])[..Min(|data| + 1, n)] == data + [b];
      var now := Over(p.buffer, data);
      assert Over(p.buffer, data + [b]) == if |data| < |p.buffer| then now[|data| := b] else now;
    } else {
      assert data[..n] == (data + [b])[..n];
    }
  }

  /** Everything the frame announces has come. */
  predicate Complete(octets: seq<byte>)
    requires |octets| >= HEADER_OCTETS
  {
    |octets| >= HEADER_OCTETS + Announced(octets) + 2
  }

  lemma {:induction false} DataEnds(checks: Checks, p: Port, octets: seq<byte>)
    requires |octets| >= HEADER_OCTETS && GoodHeader(checks, octets)
    requires 0 < Announced(octets) && |octets| == HEADER_OCTETS + Announced(octets) + 2
    ensures var r := Heard(checks, p, octets); var n := Announced(octets);
      var good := DataSum(checks, octets[HEADER_OCTETS..], 0xFFFF) == 0xF0B8;
      r.phase.Idle? && r.port == DataPort(p, octets).(index := n + 1, valid := if good then true else p.valid,
                                                      invalid := if good then p.invalid else true)
  {
    var shorter, b, n := octets[..|octets| - 1], octets[|octets| - 1], Announced(octets);
    var data := octets[HEADER_OCTETS..];
    assert shorter[..HEADER_OCTETS] == octets[..HEADER_OCTETS] && shorter[HEADER_OCTETS..] + [b] == data;
    DataHeard(checks, p, shorter);
    DataSumAppend(checks, shorter[HEADER_OCTETS..], b, 0xFFFF);
    assert shorter[HEADER_OCTETS..][..n] == data[..n];
  }

  /** A frame is cut in its header, has a bad header, has no data, is cut in its
      data, or is complete. */
  lemma {:induction false} Shapes(checks: Checks, x: Reception)
    requires IsReception(checks, x)
    ensures var n := |x.octets|;
      && (n < HEADER_OCTETS ==> x.cut)
      && (n >= HEADER_OCTETS ==>
           if !GoodHeader(checks, x.octets) || Announced(x.octets) == 0 then n == HEADER_OCTETS && !x.cut
           else n <= HEADER_OCTETS + Announced(x.octets) + 2 && (x.cut <==> !Complete(x.octets)))
  {
    hide GoodHeader, Heard, DataSum, DataPort;
    var w, n := x.octets, |x.octets|;
    if n < HEADER_OCTETS {
      HeaderHeard(checks, x.before, w);
    } else if !GoodHeader(checks, w) || Announced(w) == 0 {
      NoData(checks, x.before, w);
      assert w[..n] == w;
    } else if n < HEADER_OCTETS + Announced(w) + 2 {
      DataHeard(checks, x.before, w);
    } else {
      var total := HEADER_OCTETS + Announced(w) + 2;
      HeaderOfPrefix(checks, w, total);
      DataEnds(checks, x.before, w[..total]);
      assert w[..n] == w;
    }
  }

  lemma HeaderOfPrefix(checks: Checks, octets: seq<byte>, n: nat)
    requires HEADER_OCTETS <= n <= |octets|
    ensures Announced(octets[..n]) == Announced(octets) && (GoodHeader(checks, octets[..n]) <==> GoodHeader(checks, octets))
  {
    assert octets[..n][..HEADER_OCTETS] == octets[..HEADER_OCTETS];
  }

  /** A bad header, or one without data, ends the frame. */
  lemma NoData(checks: Checks, p: Port, octets: seq<byte>)
    requires |octets| >= HEADER_OCTETS && (!GoodHeader(checks, octets) || Announced(octets) == 0)
    ensures var r := Heard(checks, p, octets[..HEADER_OCTETS]); var q := WithHeader(p, octets).(index := 5);
      && r.phase.Idle?
      && r.port == if !GoodHeader(checks, octets) then q.(invalid := true)
                   else if ForUs(q) then q.(valid := true) else q.(validNotForUs := true)
  {
    var header := octets[..HEADER_OCTETS];
    WholeHeaderHeard(checks, p, header);
    assert header[..HEADER_OCTETS] == header;
  }

  /** What the writer finds, from the octets alone. */
  function Outcome(checks: Checks, x: Reception): Port {
    var p, w := x.before, x.octets;
    if |w| < HEADER_OCTETS then HeaderSoFar(p, w).(index := 0, invalid := true)
    else if !GoodHeader(checks, w) then WithHeader(p, w).(index := 0, invalid := true)
    else if Announced(w) == 0 then
      var q := WithHeader(p, w).(index := 5);
      if ForUs(q) then q.(valid := true) else q.(validNotForUs := true)
    else if !Complete(w) then DataPort(p, w).(index := |w| - HEADER_OCTETS, invalid := true)
    else
      var q := DataPort(p, w).(index := Announced(w) + 1);
      if DataSum(checks, w[HEADER_OCTETS..], 0xFFFF) == 0xF0B8 then q.(valid := true) else q.(invalid := true)
  }

  lemma {:induction false} FinalIsOutcome(checks: Checks, x: Reception)
    requires IsReception(checks, x)
    ensures Final(checks, x) == Outcome(checks, x)
  {
    Shapes(checks, x);
    var w, n := x.octets, |x.octets|;
    if n < HEADER_OCTETS {
      HeaderHeard(checks, x.before, w);
    } else if !GoodHeader(checks, w) || Announced(w) == 0 {
      assert w[..HEADER_OCTETS] == w;
      NoData(checks, x.before, w);
      HeaderHeard(checks, x.before, w[..5]);
    } else if !Complete(w) {
      DataHeard(checks, x.before, w);
    } else {
      DataEnds(checks, x.before, w);
      HeaderOfPrefix(checks, w, n - 1);
      DataHeard(checks, x.before, w[..n - 1]);
    }
  }

  // ---- What the reader makes of the record ----

  /** What a packet read from the file counts as, if it counts. */
  function Recounted(checks: Checks, q: Packet): Option<Frame> {
    if Accepted(checks, q) then Some(FrameOf(checks, q)) else None
  }

  function Counted(checks: Checks, c: Captured): Option<Frame> {
    if c.port.valid || c.port.validNotForUs then Some(LiveFrame(checks, c)) else None
  }

  /** The frames whose records are read as something else than was received:
      - cut in the header, if what stands in for the missing octets (those of
        earlier frames, and the CRC 0) completes a good header;
      - cut between a good header and its data, always;
      - with data longer than the input buffer, which the record holds in part
        only, unless that part has the same CRC and is no I-Am;
      - cut in the data, or with a wrong data CRC, if the octets received and,
        behind them, older octets of the buffer and the CRC fit each other. */
  predicate Misread(checks: Checks, x: Reception) {
    var p, w := x.before, x.octets;
    if |w| < HEADER_OCTETS then HeaderSum(checks, HeaderOf(HeaderSoFar(p, w)), 0xFF) == 0x55
    else if !GoodHeader(checks, w) || Announced(w) == 0 then false
    else
      var data, n, size := w[HEADER_OCTETS..], Announced(w), |p.buffer|;
      if data == [] then true
      else if Complete(w) && DataSum(checks, data, 0xFFFF) == 0xF0B8 then
        n > size && (DataSum(checks, data[..size] + data[n..], 0xFFFF) != 0xF0B8 || checks.iAm(data[..size]).Some?)
      else
        var stored := Over(p.buffer, data[..Min(|data|, n)])[..Min(size, Min(|data|, n + 1))];
        var crc := [if |data| > n then data[n] else p.dataCrcMsb, if |data| > n + 1 then data[n + 1] else p.dataCrcLsb];
        DataSum(checks, stored + crc, 0xFFFF) == 0xF0B8
  }

  lemma HeaderRecord(checks: Checks, c: Captured)
    requires MaxData(c.port) == 0 && Timely(c.time)
    ensures var q := Written(c.time, c.port);
      && q.data == [] && (Accepted(checks, q) <==> HeaderSum(checks, HeaderOf(c.port), 0xFF) == 0x55)
      && FrameOf(checks, q) == Frame(c.time, c.port.kind, c.port.src, c.port.dst, None)
  {
  }

  lemma DataRecord(checks: Checks, c: Captured)
    requires MaxData(c.port) > 0 && Timely(c.time)
    ensures var q := Written(c.time, c.port); var data := c.port.buffer[..MaxData(c.port)];
      && q.data == data != []
      && (Accepted(checks, q) <==> DataSum(checks, data + [c.port.dataCrcMsb, c.port.dataCrcLsb], 0xFFFF) == 0xF0B8)
      && FrameOf(checks, q) == Frame(c.time, c.port.kind, c.port.src, c.port.dst, checks.iAm(data))
  {
  }

  /** The record of a frame is read as what was received, exactly if the frame is
      none of those. */
  lemma {:induction false} ReadRightIff(checks: Checks, x: Reception)
    requires IsReception(checks, x)
    ensures var c := CapturedOf(checks, x);
      Recounted(checks, Written(c.time, c.port)) == Counted(checks, c) <==> !Misread(checks, x)
  {
    hide Heard, HeaderSum, DataSum, IsReception, Written, Accepted, FrameOf;
    FinalIsOutcome(checks, x);
    Shapes(checks, x);
    Beforehand(checks, x);
    var w := x.octets;
    if |w| < HEADER_OCTETS || !GoodHeader(checks, w) || Announced(w) == 0 || |w| == HEADER_OCTETS {
      HeaderOnly(checks, x);
    } else if Complete(w) && DataSum(checks, w[HEADER_OCTETS..], 0xFFFF) == 0xF0B8 {
      WholeFrame(checks, x);
    } else {
      BrokenFrame(checks, x);
    }
  }

  lemma Beforehand(checks: Checks, x: Reception)
    requires IsReception(checks, x)
    ensures Timely(x.time) && 0 < |x.before.buffer|
    ensures !x.before.valid && !x.before.validNotForUs && !x.before.invalid
  {
  }

  lemma HeaderOnly(checks: Checks, x: Reception)
    requires Timely(x.time)
    requires !x.before.valid && !x.before.validNotForUs && !x.before.invalid
    requires var w := x.octets; |w| < HEADER_OCTETS || !GoodHeader(checks, w) || Announced(w) == 0 || |w| == HEADER_OCTETS
    requires |x.octets| >= HEADER_OCTETS ==> |x.octets| == HEADER_OCTETS
    ensures var c := Captured(x.time, Outcome(checks, x));
      Recounted(checks, Written(c.time, c.port)) == Counted(checks, c) <==> !Misread(checks, x)
  {
    hide DataSum, HeaderSum, Written, Accepted, FrameOf, Over;
    var w, c := x.octets, Captured(x.time, Outcome(checks, x));
    assert MaxData(c.port) == 0;
    HeaderRecord(checks, c);
    if |w| == HEADER_OCTETS {
      assert HeaderOf(WithHeader(x.before, w)) == w == w[..HEADER_OCTETS];
    }
  }

  lemma WholeFrame(checks: Checks, x: Reception)
    requires Timely(x.time) && 0 < |x.before.buffer|
    requires var w := x.octets;
      && |w| >= HEADER_OCTETS && GoodHeader(checks, w) && 0 < Announced(w) && |w| == HEADER_OCTETS + Announced(w) + 2
      && DataSum(checks, w[HEADER_OCTETS..], 0xFFFF) == 0xF0B8
    requires !x.before.invalid
    ensures var c := Captured(x.time, Outcome(checks, x));
      Recounted(checks, Written(c.time, c.port)) == Counted(checks, c) <==> !Misread(checks, x)
  {
    hide DataSum, HeaderSum, Written, Accepted, FrameOf;
    var w, c := x.octets, Captured(x.time, Outcome(checks, x));
    var data, n, size := w[HEADER_OCTETS..], Announced(w), |x.before.buffer|;
    DataRecord(checks, c);
    if n <= size {
      assert c.port.buffer[..n] == data[..n];
      assert data[..n] + [data[n], data[n + 1]] == data;
    } else {
      assert MaxData(c.port) == size && c.port.buffer[..size] == data[..size];
      assert data[n..] == [data[n], data[n + 1]];
      assert data[..size] != [];
      assert Counted(checks, c) == Some(Frame(c.time, c.port.kind, c.port.src, c.port.dst, None));
    }
  }

  lemma BrokenFrame(checks: Checks, x: Reception)
    requires Timely(x.time) && 0 < |x.before.buffer|
    requires !x.before.valid && !x.before.validNotForUs
    requires var w := x.octets;
      && |w| > HEADER_OCTETS && GoodHeader(checks, w) && 0 < Announced(w) && |w| <= HEADER_OCTETS + Announced(w) + 2
      && !(Complete(w) && DataSum(checks, w[HEADER_OCTETS..], 0xFFFF) == 0xF0B8)
    ensures var c := Captured(x.time, Outcome(checks, x));
      Recounted(checks, Written(c.time, c.port)) == Counted(checks, c) <==> !Misread(checks, x)
  {
    hide DataSum, HeaderSum, Written, Accepted, FrameOf, Over;
    DataRecord(checks, Captured(x.time, Outcome(checks, x)));
  }

  // ---- Whole captures ----

  ghost predicate Received(checks: Checks, xs: seq<Reception>, bufferSize: nat) {
    forall x <- xs :: IsReception(checks, x) && |x.before.buffer| <= bufferSize
  }

  function CapturedAll(checks: Checks, xs: seq<Reception>): seq<Captured> {
    seq(|xs|, i requires 0 <= i < |xs| => CapturedOf(checks, xs[i]))
  }

  function RecountedAll(checks: Checks, qs: seq<Packet>): seq<Option<Frame>> {
    seq(|qs|, i requires 0 <= i < |qs| => Recounted(checks, qs[i]))
  }

  function CountedAll(checks: Checks, cs: seq<Captured>): seq<Option<Frame>> {
    seq(|cs|, i requires 0 <= i < |cs| => Counted(checks, cs[i]))
  }

  lemma {:induction false} CapturesFit(checks: Checks, xs: seq<Reception>, bufferSize: nat)
    requires Received(checks, xs, bufferSize)
    ensures AllFit(CapturedAll(checks, xs), bufferSize)
  {
    hide Heard, Final;
    forall c <- CapturedAll(checks, xs) ensures Fits(c.port, bufferSize) {
      var i: nat :| i < |xs| && c == CapturedOf(checks, xs[i]);
      FinalIsOutcome(checks, xs[i]);
    }
  }

  /** Frame by frame, a scan of the capture counts what was counted live, if and
      only if no frame is one of those that are misread. */
  lemma {:induction false} ReplayIsLiveIff(checks: Checks, xs: seq<Reception>, bufferSize: nat)
    requires Received(checks, xs, bufferSize)
    ensures var cs := CapturedAll(checks, xs);
      && AllFit(cs, bufferSize)
      && var packets := ReadAll(Concat(RecordsOf(cs, bufferSize)), bufferSize);
      && |packets| == |xs|
      && (RecountedAll(checks, packets) == CountedAll(checks, cs) <==> forall x <- xs :: !Misread(checks, x))
  {
    hide Misread, Recounted, Counted, IsReception, Written, Final;
    var cs := CapturedAll(checks, xs);
    CapturesFit(checks, xs, bufferSize);
    CaptureRoundTrip(cs, bufferSize, 0);
    var packets := WrittenAll(cs);
    forall i: nat | i < |xs|
      ensures RecountedAll(checks, packets)[i] == CountedAll(checks, cs)[i] <==> !Misread(checks, xs[i])
    {
      ReadRightIff(checks, xs[i]);
    }
    assert forall x <- xs :: exists i: nat :: i < |xs| && xs[i] == x;
  }

  function Events(frames: seq<Option<Frame>>): seq<Event> {
    if frames == [] then []
    else (if frames[0].Some? then [Seen(frames[0].value)] else []) + Events(frames[1..])
  }

  lemma {:induction false} ReplayedEvents(checks: Checks, qs: seq<Packet>)
    ensures Replayed(checks, qs) == Events(RecountedAll(checks, qs))
  {
    hide Accepted, FrameOf;
    if qs == [] {
    } else {
      ReplayedEvents(checks, qs[1..]);
      assert RecountedAll(checks, qs)[1..] == RecountedAll(checks, qs[1..]);
    }
  }

  lemma {:induction false} LiveEvents(checks: Checks, cs: seq<Captured>)
    ensures Live(checks, cs) == Events(CountedAll(checks, cs))
  {
    hide LiveFrame;
    if cs == [] {
    } else {
      LiveEvents(checks, cs[1..]);
      assert CountedAll(checks, cs)[1..] == CountedAll(checks, cs[1..]);
    }
  }

  /** Then every station has the statistics it had when the capture was made. */
  lemma {:induction false} ReplayedStatistics(checks: Checks, xs: seq<Reception>, bufferSize: nat, s: byte)
    requires Received(checks, xs, bufferSize) && forall x <- xs :: !Misread(checks, x)
    ensures var cs := CapturedAll(checks, xs);
      && AllFit(cs, bufferSize)
      && StationAfter(Replayed(checks, ReadAll(Concat(RecordsOf(cs, bufferSize)), bufferSize)), s)
         == StationAfter(Live(checks, cs), s)
  {
    var cs := CapturedAll(checks, xs);
    ReplayIsLiveIff(checks, xs, bufferSize);
    ReplayedEvents(checks, ReadAll(Concat(RecordsOf(cs, bufferSize)), bufferSize));
    LiveEvents(checks, cs);
  }

  /** A single frame, as it counts live and when its capture is scanned. */
  lemma {:induction false} OneFrame(checks: Checks, x: Reception, bufferSize: nat)
    requires Received(checks, [x], bufferSize)
    ensures var cs, c := CapturedAll(checks, [x]), Captured(x.time, Outcome(checks, x));
      && AllFit(cs, bufferSize)
      && Replayed(checks, ReadAll(Concat(RecordsOf(cs, bufferSize)), bufferSize))
         == Events([Recounted(checks, Written(c.time, c.port))])
      && Live(checks, cs) == Events([Counted(checks, c)])
  {
    hide Outcome, Final, Written, Recounted, Counted, Accepted;
    var cs := CapturedAll(checks, [x]);
    CapturesFit(checks, [x], bufferSize);
    CaptureRoundTrip(cs, bufferSize, 0);
    FinalIsOutcome(checks, x);
    ReplayedEvents(checks, WrittenAll(cs));
    LiveEvents(checks, cs);
    var c := Captured(x.time, Outcome(checks, x));
    assert cs == [c];
    assert RecountedAll(checks, WrittenAll(cs)) == [Recounted(checks, Written(c.time, c.port))];
    assert CountedAll(checks, cs) == [Counted(checks, c)];
  }

  lemma OneEvent(f: Option<Frame>, s: byte, counter: Counter)
    ensures CountIn(counter, StationAfter(Events([f]), s)) == if f.Some? && Counts(counter, s, START, f.value) then 1 else 0
  {
    assert [f][1..] == [] && Events([]) == [];
    var trace := Events([f]);
    assert trace == if f.Some? then [Seen(f.value)] else [];
    CountersAreExact(trace, counter, s);
    if f.Some? {
      assert trace[..0] == [] && CountSince([], CountsFor(counter, s)) == 0;
    }
  }

  /** A token with a length, cut off behind its good header, is no token when it
      is received and one when the capture is scanned. */
  lemma {:induction false} CutTokenIsCounted(checks: Checks, x: Reception, bufferSize: nat)
    requires Received(checks, [x], bufferSize) && |x.octets| == HEADER_OCTETS && x.cut && GoodHeader(checks, x.octets)
    requires x.octets[0] == TOKEN
    ensures var cs, s := CapturedAll(checks, [x]), x.octets[2];
      && AllFit(cs, bufferSize)
      && var scanned := Replayed(checks, ReadAll(Concat(RecordsOf(cs, bufferSize)), bufferSize));
         CountIn(TokensSent, StationAfter(Live(checks, cs), s)) == 0 && CountIn(TokensSent, StationAfter(scanned, s)) == 1
  {
    hide Heard, Written, Accepted, FrameOf, CountIn, StationAfter, Replayed, Live, ReadAll, Concat, Events;
    var s, w, c := x.octets[2], x.octets, Captured(x.time, Outcome(checks, x));
    OneFrame(checks, x, bufferSize);
    assert IsReception(checks, x);
    Shapes(checks, x);
    HeaderRecord(checks, c);
    assert HeaderOf(c.port) == w == w[..HEADER_OCTETS];
    OneEvent(Counted(checks, c), s, TokensSent);
    OneEvent(Recounted(checks, Written(c.time, c.port)), s, TokensSent);
  }

  /** A valid data frame longer than the input buffer counts when it is received,
      and not when the capture is scanned, unless the CRC fits the part kept. */
  lemma {:induction false} LongFrameIsLost(checks: Checks, x: Reception, bufferSize: nat)
    requires Received(checks, [x], bufferSize) && |x.octets| > HEADER_OCTETS && !x.cut && GoodHeader(checks, x.octets)
    requires x.octets[0] == DATA_EXPECTING_REPLY
    requires var data, n, size := x.octets[HEADER_OCTETS..], Announced(x.octets), |x.before.buffer|;
      && n > size && |data| == n + 2 && DataSum(checks, data, 0xFFFF) == 0xF0B8
      && DataSum(checks, data[..size] + data[n..], 0xFFFF) != 0xF0B8
    ensures var cs, s := CapturedAll(checks, [x]), x.octets[2];
      && AllFit(cs, bufferSize)
      && var scanned := Replayed(checks, ReadAll(Concat(RecordsOf(cs, bufferSize)), bufferSize));
         CountIn(DataExpecting, StationAfter(Live(checks, cs), s)) == 1 && CountIn(DataExpecting, StationAfter(scanned, s)) == 0
  {
    hide Heard, Written, Accepted, FrameOf, CountIn, StationAfter, Replayed, Live, ReadAll, Concat, Events, DataSum;
    var s, w, c := x.octets[2], x.octets, Captured(x.time, Outcome(checks, x));
    var data, n, size := w[HEADER_OCTETS..], Announced(w), |x.before.buffer|;
    OneFrame(checks, x, bufferSize);
    assert IsReception(checks, x);
    DataRecord(checks, c);
    assert c.port.buffer[..size] == data[..size] && data[n..] == [data[n], data[n + 1]];
    OneEvent(Counted(checks, c), s, DataExpecting);
    OneEvent(Recounted(checks, Written(c.time, c.port)), s, DataExpecting);
  }
}
