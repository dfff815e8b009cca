/** Chunked file transfer: apps/writefile and apps/readfile as the two ends of
    one protocol.  The loops run over events that the network decides. */
module FileTransfer {
  import opened Octets

  type File = seq<byte>

  // ---- Chunk sizes ----

  /** The size of a chunk from the device's maximum APDU and our own: unsigned
      arithmetic on a 16-bit value; `small` is the overhead of small APDUs. */
  function ChunkSize(maxApdu: nat, own: uint16, small: nat): uint32 {
    var my := if maxApdu < own then maxApdu else own;
    if my <= 50 then (my - small) % UINT32
    else if my <= 480 then my - 32
    else if my <= 1476 then my - 64
    else my / 2
  }

  const WRITE_OVERHEAD := 19
  const READ_OVERHEAD := 20

  /** A chunk has octets and leaves room for the overhead exactly if the smaller
      of the two APDUs is larger than the overhead. */
  lemma ChunksFit(maxApdu: nat, own: uint16, small: nat)
    requires 16 <= small <= 20
    ensures 0 < ChunkSize(maxApdu, own, small) <= maxApdu - 16 && ChunkSize(maxApdu, own, small) <= own - 16
            <==> maxApdu > small && own > small
  {
    var my := if maxApdu < own then maxApdu else own;
    if my <= small {
      assert (my - small) % UINT32 == if my == small then 0 else my - small + UINT32;
    }
  }

  /** For the sizes that the comment in the code calls typical. */
  lemma TypicalChunks(own: uint16)
    requires own >= 1476
    ensures ChunkSize(50, own, WRITE_OVERHEAD) == 31 && ChunkSize(50, own, READ_OVERHEAD) == 30
    ensures forall small :: 0 <= small ==>
      && ChunkSize(128, own, small) == 96 && ChunkSize(206, own, small) == 174 && ChunkSize(480, own, small) == 448
      && ChunkSize(1024, own, small) == 960 && ChunkSize(1476, own, small) == 1412
    ensures own >= 1500 ==> ChunkSize(1500, own, WRITE_OVERHEAD) == 750
  {}

  // ---- Writing ----

  function Chunk(f: File, pos: nat, count: nat): File {
    if pos >= |f| then [] else f[pos..if pos + count <= |f| then pos + count else |f|]
  }

  /** What writing `data` at `pos` makes of a file. */
  function WriteAt(f: File, pos: nat, data: File): File
    requires pos <= |f|
  {
    f[..pos] + data + if pos + |data| <= |f| then f[pos + |data|..] else []
  }

  /** The file with its first octets replaced. */
  function Overlay(f: File, data: File): File {
    WriteAt(f, 0, data)
  }

  /** The variables of writefile's main(), and the remote file. */
  datatype Writer = Writer(pos: nat, id: byte, eof: bool, error: bool, over: bool, chunk: File, remote: File)

  /** What happens around one turn of a loop: an error, abort or reject for the
      current request, or the state of its invoke id and the id of the next. */
  datatype Event = Problem | Free(newId: byte) | Busy | Failed

  function SendNext(local: File, count: nat, w: Writer, newId: byte): Writer {
    var chunk := Chunk(local, w.pos, count);
    w.(chunk := chunk, eof := w.eof || |chunk| < count, id := newId)
  }

  /** One turn of writefile.  A device carries out the request whose invoke id
      is freed without an error. */
  function WriteTurn(local: File, count: nat, w: Writer, e: Event): Writer {
    if w.over then w
    else
      match e
      case Problem => w.(error := true)
      case Busy => w
      case Failed => if w.id == 0 then w else w.(error := true, over := true)
      case Free(newId) =>
        if w.error then w.(over := true)
        else
          var done := if w.id != 0 && w.pos <= |w.remote| then w.(remote := WriteAt(w.remote, w.pos, w.chunk)) else w;
          if w.eof then done.(over := true)
          else SendNext(local, count, if w.id != 0 then done.(pos := w.pos + count) else done, newId)
  }

  function WriteRun(local: File, count: nat, w: Writer, events: seq<Event>): Writer
    decreases |events|
  {
    if events == [] then w else WriteRun(local, count, WriteTurn(local, count, w, events[0]), events[1..])
  }

  function StartWriting(remote: File): Writer {
    Writer(0, 0, false, false, false, [], remote)
  }

  /** How many octets the device has acknowledged. */
  function Acknowledged(local: File, count: nat, w: Writer): nat {
    if w.over && w.id != 0 then |local| else w.pos
  }

  /** A whole number of chunks. */
  predicate Multiple(pos: nat, count: nat)
    requires count > 0
    decreases pos
  {
    pos == 0 || (pos >= count && Multiple(pos - count, count))
  }

  /** Acknowledged chunks tile the file from its start; the one under way comes
      next, and is the last if it is shorter than the others. */
  ghost predicate Tiled(local: File, count: nat, remote0: File, w: Writer) {
    && count > 0
    && Multiple(w.pos, count) && w.pos <= |local|
    && (w.id != 0 || w.eof ==> w.chunk == Chunk(local, w.pos, count) && (w.eof <==> |w.chunk| < count))
    && (w.over && !w.error ==> w.eof)
    && (!w.error ==> w.remote == Overlay(remote0, local[..Acknowledged(local, count, w)]))
  }

  lemma OverlayNext(remote0: File, local: File, pos: nat, end: nat)
    requires pos <= end <= |local|
    ensures var r := Overlay(remote0, local[..pos]);
      pos <= |r| && WriteAt(r, pos, local[pos..end]) == Overlay(remote0, local[..end])
  {
    assert local[..pos] + local[pos..end] == local[..end];
  }

  lemma WriteTurnTiles(local: File, count: nat, remote0: File, w: Writer, e: Event)
    requires Tiled(local, count, remote0, w)
    ensures Tiled(local, count, remote0, WriteTurn(local, count, w, e))
  {
    hide WriteAt;
    if e.Free? && !w.over && !w.error && w.id != 0 {
      OverlayNext(remote0, local, w.pos, w.pos + |w.chunk|);
    }
  }

  lemma {:induction false} WriteRunTiles(local: File, count: nat, remote0: File, w: Writer, events: seq<Event>)
    requires Tiled(local, count, remote0, w)
    ensures Tiled(local, count, remote0, WriteRun(local, count, w, events))
    decreases |events|
  {
    if events == [] {
    } else {
      WriteTurnTiles(local, count, remote0, w, events[0]);
      WriteRunTiles(local, count, remote0, WriteTurn(local, count, w, events[0]), events[1..]);
    }
  }

  /** Where the chunk that ends the file begins: the octets in whole chunks. */
  function LastChunk(size: nat, count: nat): (n: nat)
    requires count > 0
    ensures n <= size < n + count
    decreases size
  {
    if size < count then 0 else count + LastChunk(size - count, count)
  }

  lemma {:induction false} LastChunkAt(size: nat, pos: nat, count: nat)
    requires count > 0 && Multiple(pos, count) && pos <= size < pos + count
    ensures pos == LastChunk(size, count)
    decreases pos
  {
    if pos == 0 {
    } else {
      LastChunkAt(size - count, pos - count, count);
    }
  }

  function Chunks(size: nat, count: nat): nat
    requires count > 0
    decreases size
  {
    if size < count then 0 else 1 + Chunks(size - count, count)
  }

  /** A run of writefile that ends without an error has written the whole file,
      unless the invoke id of its last request was 0: the request for the short
      chunk at the end is not repeated, and that chunk is missing. */
  lemma WrittenExactly(local: File, count: nat, remote0: File, events: seq<Event>)
    requires count > 0
    ensures var w := WriteRun(local, count, StartWriting(remote0), events);
      w.over && !w.error ==>
        w.remote == Overlay(remote0, if w.id != 0 then local else local[..LastChunk(|local|, count)])
  {
    var w0 := StartWriting(remote0);
    assert w0.remote == Overlay(remote0, local[..0]);
    WriteRunTiles(local, count, remote0, w0, events);
    var w := WriteRun(local, count, w0, events);
    assert local[..|local|] == local;
    if w.over && !w.error {
      LastChunkAt(|local|, w.pos, count);
    }
  }

  /** Into an empty file: complete exactly if the last request went out, or had
      nothing to carry. */
  lemma WrittenIff(local: File, count: nat, events: seq<Event>)
    requires count > 0
    ensures var w := WriteRun(local, count, StartWriting([]), events);
      w.over && !w.error ==> (w.remote == local <==> w.id != 0 || LastChunk(|local|, count) == |local|)
  {
    WrittenExactly(local, count, [], events);
    var n := LastChunk(|local|, count);
    assert |local[..n]| == n;
    assert n == |local| ==> local[..n] == local;
  }

  /** The turns that find the invoke id free and get one for their request. */
  function Granted(events: seq<Event>): nat {
    if events == [] then 0
    else (if events[0].Free? && events[0].newId != 0 then 1 else 0) + Granted(events[1..])
  }

  /** As long as nothing fails, one request per chunk that goes out, and two more
      at most, end the run, however many turns wait or send without an id. */
  lemma {:induction false} WritingEnds(local: File, count: nat, remote0: File, w: Writer, events: seq<Event>)
    requires Tiled(local, count, remote0, w) && !w.error && !w.over
    requires forall e <- events :: e.Busy? || e.Free?
    requires Granted(events) >= (if w.eof then 1 else if w.id == 0 then 2 else 1) + Chunks(|local| - w.pos, count)
    ensures var w' := WriteRun(local, count, w, events);
      && w'.over && !w'.error
      && ((forall e <- events :: e.Free? ==> e.newId != 0) && (w.id != 0 || !w.eof) ==> w'.id != 0)
    decreases |events|
  {
    hide Tiled, WriteAt;
    var w1 := WriteTurn(local, count, w, events[0]);
    WriteTurnTiles(local, count, remote0, w, events[0]);
    WriteProgress(local, count, remote0, w, events[0]);
    if w1.over {
      StaysOver(local, count, w1, events[1..]);
    } else {
      WritingEnds(local, count, remote0, w1, events[1..]);
    }
  }

  lemma WriteProgress(local: File, count: nat, remote0: File, w: Writer, e: Event)
    requires Tiled(local, count, remote0, w) && !w.error && !w.over && (e.Busy? || e.Free?)
    ensures var w1 := WriteTurn(local, count, w, e); var sent := e.Free? && e.newId != 0;
      && count > 0 && w.pos <= |local| && w1.pos <= |local| && !w1.error
      && (e.Busy? ==> w1 == w)
      && (e.Free? && w.eof ==> w1.over && w1.id == w.id)
      && (e.Free? && !w.eof ==> !w1.over && w1.id == e.newId)
      && (w1.over || w1.eof || (if w1.id == 0 then 2 else 1) + Chunks(|local| - w1.pos, count)
                               == (if w.id == 0 then 2 else 1) + Chunks(|local| - w.pos, count) - (if sent then 1 else 0))
      && (w1.eof ==> Chunks(|local| - w1.pos, count) == 0)
  {
    hide Overlay;
    var w1 := WriteTurn(local, count, w, e);
    WriteTurnTiles(local, count, remote0, w, e);
  }

  lemma {:induction false} StaysOver(local: File, count: nat, w: Writer, events: seq<Event>)
    requires w.over
    ensures WriteRun(local, count, w, events) == w
    decreases |events|
  {
    if events == [] {
    } else {
      StaysOver(local, count, w, events[1..]);
    }
  }

  /** Something goes wrong before the run is over: an error, abort or reject for
      the request, or its invoke id fails. */
  predicate WritingFails(local: File, count: nat, w: Writer, events: seq<Event>)
    decreases |events|
  {
    events != [] && !w.over
    && (events[0].Problem? || (events[0].Failed? && w.id != 0)
        || WritingFails(local, count, WriteTurn(local, count, w, events[0]), events[1..]))
  }

  /** After an error the device gets nothing more; the run is over as soon as the
      invoke id is free or fails. */
  lemma {:induction false} ErrorEndsWriting(local: File, count: nat, w: Writer, events: seq<Event>)
    requires w.error
    ensures var w' := WriteRun(local, count, w, events);
      && w' == w.(over := w'.over)
      && (w'.over <==> w.over || exists e <- events :: e.Free? || (e.Failed? && w.id != 0))
    decreases |events|
  {
    if events == [] {
    } else if w.over {
      StaysOver(local, count, w, events);
    } else {
      ErrorEndsWriting(local, count, WriteTurn(local, count, w, events[0]), events[1..]);
      assert forall e :: e in events <==> e == events[0] || e in events[1..];
    }
  }

  /** A run ends with an error exactly if something went wrong in it. */
  lemma {:induction false} WritingFailsIff(local: File, count: nat, w: Writer, events: seq<Event>)
    requires !w.error
    ensures WriteRun(local, count, w, events).error <==> WritingFails(local, count, w, events)
    decreases |events|
  {
    if events == [] {
    } else if w.over {
      StaysOver(local, count, w, events);
    } else {
      var w1 := WriteTurn(local, count, w, events[0]);
      if w1.error {
        ErrorEndsWriting(local, count, w1, events[1..]);
      } else {
        WritingFailsIff(local, count, w1, events[1..]);
      }
    }
  }

  // ---- Reading ----

  /** A decoded stream acknowledgement. */
  datatype Ack = Ack(pos: nat, data: File, eof: bool)

  /** The variables of readfile, and the local file.  `asked` is the position in
      the request with invoke id `id`; `got` says that the file was usable. */
  datatype Reader = Reader(pos: nat, id: byte, asked: nat, eof: bool, error: bool, over: bool, got: bool, local: File)

  /** An acknowledgement reaches its handler, or a turn of the loop. */
  datatype ReadEvent = Received(fromTarget: bool, id: byte, ack: Ack, usable: bool) | Turn(event: Event)

  /** The part of the handler that stores the data: a chunk at position 0
      starts the file anew. */
  function Store(r: Reader, ack: Ack): Reader {
    var file := if ack.pos == 0 then [] else r.local;
    if ack.pos > |file| then r // not asked for by any request
    else
      r.(local := WriteAt(file, ack.pos, ack.data), got := true,
         pos := if ack.data == [] then r.pos else ack.pos + |ack.data|)
  }

  function AckHandler(r: Reader, fromTarget: bool, id: byte, ack: Ack, usable: bool): Reader {
    if !fromTarget || id != r.id then r
    else
      var stored := if usable then Store(r, ack) else r;
      stored.(eof := r.eof || ack.eof)
  }

  function ReadTurn(r: Reader, e: Event): Reader {
    match e
    case Problem => r.(error := true)
    case Busy => r
    case Failed => if r.id == 0 then r else r.(error := true, over := true)
    case Free(newId) =>
      if r.eof || r.error then r.(over := true) else r.(id := newId, asked := r.pos)
  }

  function ReadStep(r: Reader, e: ReadEvent): Reader {
    if r.over then r
    else
      match e
      case Received(fromTarget, id, ack, usable) => AckHandler(r, fromTarget, id, ack, usable)
      case Turn(event) => ReadTurn(r, event)
  }

  function ReadRun(r: Reader, events: seq<ReadEvent>): Reader
    decreases |events|
  {
    if events == [] then r else ReadRun(ReadStep(r, events[0]), events[1..])
  }

  function StartReading(leftover: File): Reader {
    Reader(0, 0, 0, false, false, false, false, leftover)
  }

  /** The device answers the request under way, any number of times, with the
      octets asked for, and marks the end only there; a request without an
      invoke id has no answer.  The chunk that ends the file can be saved. */
  ghost predicate Faithful(remote: File, count: nat, r: Reader, e: ReadEvent) {
    e.Received? && e.fromTarget && e.id == r.id ==>
      && r.id != 0
      && e.ack.pos == r.asked && e.ack.data == Chunk(remote, r.asked, count)
      && (e.ack.eof ==> r.asked + |e.ack.data| >= |remote| && e.usable)
  }

  ghost predicate FaithfulRun(remote: File, count: nat, r: Reader, events: seq<ReadEvent>)
    decreases |events|
  {
    events == [] || (Faithful(remote, count, r, events[0]) && FaithfulRun(remote, count, ReadStep(r, events[0]), events[1..]))
  }

  /** What was fetched so far is what the device has there. */
  ghost predicate Fetched(remote: File, count: nat, r: Reader) {
    && r.pos <= |remote|
    && (if r.got then r.local == remote[..r.pos] else r.pos == 0)
    && (r.id != 0 ==> r.asked == r.pos || (r.got && r.pos == r.asked + |Chunk(remote, r.asked, count)|))
    && (r.eof ==> r.got && r.pos == |remote|)
    && (r.over ==> r.eof || r.error)
  }

  lemma StoreKeepsFetched(remote: File, count: nat, r: Reader, ack: Ack)
    requires Fetched(remote, count, r) && r.id != 0
    requires ack.pos == r.asked && ack.data == Chunk(remote, r.asked, count)
    ensures var r' := Store(r, ack);
      && r' == r.(local := r'.local, got := true, pos := r.asked + |ack.data|)
      && r'.local == remote[..r'.pos]
  {
    var end := r.asked + |ack.data|;
    assert remote[..r.asked] + ack.data == remote[..end];
    if r.asked > 0 {
      assert r.local[..r.asked] == remote[..r.asked];
      assert r.pos <= end;
      if r.pos == end {
        assert r.local[end..] == [];
      }
    }
  }

  lemma {:induction false} ReadStepKeepsFetched(remote: File, count: nat, r: Reader, e: ReadEvent)
    requires Fetched(remote, count, r) && Faithful(remote, count, r, e)
    ensures Fetched(remote, count, ReadStep(r, e))
  {
    hide Store, WriteAt;
    if !r.over && e.Received? && e.fromTarget && e.id == r.id && e.usable {
      StoreKeepsFetched(remote, count, r, e.ack);
    }
  }

  /** Through lost, repeated and foreign answers, sends without an invoke id and
      files that cannot be opened, local[..pos] is remote[..pos]; and a run that
      ends without an error has fetched the whole file. */
  lemma {:induction false} ReadRunFetches(remote: File, count: nat, r: Reader, events: seq<ReadEvent>)
    requires Fetched(remote, count, r) && FaithfulRun(remote, count, r, events)
    ensures var r' := ReadRun(r, events);
      && Fetched(remote, count, r')
      && (r'.over && !r'.error ==> r'.local == remote)
    decreases |events|
  {
    if events == [] {
      assert remote[..|remote|] == remote;
    } else {
      ReadStepKeepsFetched(remote, count, r, events[0]);
      ReadRunFetches(remote, count, ReadStep(r, events[0]), events[1..]);
    }
  }

  /** Nothing fails, and the device marks the end at a short chunk at the latest. */
  predicate Undisturbed(count: nat, e: ReadEvent) {
    match e
    case Received(_, _, ack, _) => |ack.data| < count ==> ack.eof
    case Turn(event) => event.Busy? || event.Free?
  }

  /** The first usable answer to a request. */
  predicate Fetches(r: Reader, e: ReadEvent) {
    !r.over && e.Received? && e.fromTarget && e.id == r.id && e.usable && r.pos == r.asked
  }

  function FetchCount(r: Reader, events: seq<ReadEvent>): nat
    decreases |events|
  {
    if events == [] then 0 else (if Fetches(r, events[0]) then 1 else 0) + FetchCount(ReadStep(r, events[0]), events[1..])
  }

  lemma ReadProgress(remote: File, count: nat, r: Reader, e: ReadEvent)
    requires count > 0 && Fetched(remote, count, r) && !r.over && !r.error
    requires Faithful(remote, count, r, e) && Undisturbed(count, e)
    ensures var r1 := ReadStep(r, e);
      && r1.pos <= |remote| && !r1.error && (r.eof ==> r1.eof) && (r1.over ==> r1.eof)
      && (Fetches(r, e) && !r1.eof ==> r1.pos == r.pos + count)
      && (!Fetches(r, e) ==> r1.pos == r.pos)
  {
    hide Store, WriteAt;
    ReadStepKeepsFetched(remote, count, r, e);
    if e.Received? && e.fromTarget && e.id == r.id && e.usable {
      StoreKeepsFetched(remote, count, r, e.ack);
    }
  }

  lemma {:induction false} EndIsMarked(remote: File, count: nat, r: Reader, events: seq<ReadEvent>)
    requires count > 0 && Fetched(remote, count, r) && !r.error
    requires FaithfulRun(remote, count, r, events) && forall e <- events :: Undisturbed(count, e)
    requires r.eof || FetchCount(r, events) > Chunks(|remote| - r.pos, count)
    ensures ReadRun(r, events).eof && !ReadRun(r, events).error
    decreases |events|
  {
    hide Fetches, Fetched, Faithful, ReadStep;
    if events == [] {
    } else if r.over {
      ReaderStaysOver(r, events);
    } else {
      ReadStepKeepsFetched(remote, count, r, events[0]);
      ReadProgress(remote, count, r, events[0]);
      EndIsMarked(remote, count, ReadStep(r, events[0]), events[1..]);
    }
  }

  lemma {:induction false} ReaderStaysOver(r: Reader, events: seq<ReadEvent>)
    requires r.over
    ensures ReadRun(r, events) == r && FetchCount(r, events) == 0
    decreases |events|
  {
    if events == [] {
    } else {
      ReaderStaysOver(r, events[1..]);
    }
  }

  lemma {:induction false} OneMore(r: Reader, events: seq<ReadEvent>, e: ReadEvent)
    ensures ReadRun(r, events + [e]) == ReadStep(ReadRun(r, events), e)
    decreases |events|
  {
    if events == [] {
      assert [e][1..] == [] && events + [e] == [e];
    } else {
      assert (events + [e])[1..] == events[1..] + [e];
      OneMore(ReadStep(r, events[0]), events[1..], e);
    }
  }

  /** As long as nothing fails, one answer per chunk and one more at most end the
      run at the next turn that finds the invoke id free, however many turns
      wait and however often answers are lost, repeated or not for us. */
  lemma ReadingEnds(remote: File, count: nat, r: Reader, events: seq<ReadEvent>, newId: byte)
    requires count > 0 && Fetched(remote, count, r) && !r.over && !r.error
    requires FaithfulRun(remote, count, r, events) && forall e <- events :: Undisturbed(count, e)
    requires FetchCount(r, events) > Chunks(|remote| - r.pos, count)
    ensures var r' := ReadRun(r, events + [Turn(Free(newId))]);
      r'.over && !r'.error && r'.local == remote
  {
    EndIsMarked(remote, count, r, events);
    ReadRunFetches(remote, count, r, events);
    OneMore(r, events, Turn(Free(newId)));
    assert remote[..|remote|] == remote;
  }

  predicate ReadingFails(r: Reader, events: seq<ReadEvent>)
    decreases |events|
  {
    events != [] && !r.over
    && ((events[0].Turn? && (events[0].event.Problem? || (events[0].event.Failed? && r.id != 0)))
        || ReadingFails(ReadStep(r, events[0]), events[1..]))
  }

  /** After an error no further request goes out; the run is over as soon as the
      invoke id is free or fails. */
  lemma {:induction false} ErrorEndsReading(r: Reader, events: seq<ReadEvent>)
    requires r.error
    ensures var r' := ReadRun(r, events);
      && r'.error && r'.id == r.id && r'.asked == r.asked
      && (r'.over <==> r.over || exists e <- events :: e.Turn? && (e.event.Free? || (e.event.Failed? && r.id != 0)))
    decreases |events|
  {
    hide Store;
    if events == [] {
    } else if r.over {
      ReaderStaysOver(r, events);
    } else {
      if events[0].Received? {
        AckKeeps(r, events[0]);
      }
      ErrorEndsReading(ReadStep(r, events[0]), events[1..]);
      assert forall e :: e in events <==> e == events[0] || e in events[1..];
    }
  }

  lemma AckKeeps(r: Reader, e: ReadEvent)
    requires e.Received?
    ensures var r' := ReadStep(r, e); r'.error == r.error && r'.over == r.over && r'.id == r.id && r'.asked == r.asked
  {}

  lemma {:induction false} ReadingFailsIff(r: Reader, events: seq<ReadEvent>)
    requires !r.error
    ensures ReadRun(r, events).error <==> ReadingFails(r, events)
    decreases |events|
  {
    hide Store;
    if events == [] {
    } else if r.over {
      ReaderStaysOver(r, events);
    } else {
      var r1 := ReadStep(r, events[0]);
      if events[0].Received? {
        AckKeeps(r, events[0]);
      }
      if r1.error {
        ErrorEndsReading(r1, events[1..]);
      } else {
        ReadingFailsIff(r1, events[1..]);
      }
    }
  }

  // ---- Both ends ----

  /** Sending a file with writefile and fetching it with readfile gives it back. */
  lemma WriteThenRead(local: File, count: nat, sending: seq<Event>, leftover: File, size: nat, fetching: seq<ReadEvent>)
    requires count > 0
    requires var w := WriteRun(local, count, StartWriting([]), sending);
      && w.over && !w.error && w.id != 0
      && FaithfulRun(w.remote, size, StartReading(leftover), fetching)
    requires var r := ReadRun(StartReading(leftover), fetching); r.over && !r.error
    ensures ReadRun(StartReading(leftover), fetching).local == local
  {
    var w := WriteRun(local, count, StartWriting([]), sending);
    WrittenIff(local, count, sending);
    ReadRunFetches(w.remote, size, StartReading(leftover), fetching);
  }
}
