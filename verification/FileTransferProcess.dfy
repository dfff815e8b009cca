/** The loops of apps/writefile and apps/readfile over their static variables. */
module FileTransferProcess {
  import opened Octets
  import opened FileTransfer

  class WriteFile {
    const localFile: File
    const requestedOctetCount: nat
    var fileStartPosition: nat
    var invokeId: byte
    var endOfFileDetected: bool
    var errorDetected: bool
    var over: bool
    var fileData: File
    ghost var remote: File // at the device

    ghost function View(): Writer
      reads this
    {
      Writer(fileStartPosition, invokeId, endOfFileDetected, errorDetected, over, fileData, remote)
    }

    constructor (localFile: File, requestedOctetCount: nat, ghost remote: File)
      ensures View() == StartWriting(remote) && this.localFile == localFile && this.requestedOctetCount == requestedOctetCount
    {
      this.localFile, this.requestedOctetCount := localFile, requestedOctetCount;
      fileStartPosition, invokeId, endOfFileDetected, errorDetected, over, fileData := 0, 0, false, false, false, [];
      this.remote := remote;
    }

    /** fseek and fread of the next chunk. */
    method ReadChunk()
      modifies this`fileData, this`endOfFileDetected
      ensures fileData == Chunk(localFile, fileStartPosition, requestedOctetCount)
      ensures endOfFileDetected == (old(endOfFileDetected) || |fileData| < requestedOctetCount)
    {
      var end := fileStartPosition + requestedOctetCount;
      if end > |localFile| {
        end := |localFile|;
      }
      fileData := if fileStartPosition < |localFile| then localFile[fileStartPosition..end] else [];
      if |fileData| < requestedOctetCount {
        endOfFileDetected := true;
      }
    }

    method Turn(e: Event)
      requires !over
      modifies this
      ensures View() == WriteTurn(localFile, requestedOctetCount, old(View()), e)
    {
      if e.Problem? {
        errorDetected := true;
      } else if e.Failed? {
        if invokeId != 0 {
          errorDetected, over := true, true;
        }
      } else if e.Free? {
        if invokeId != 0 && !errorDetected && fileStartPosition <= |remote| {
          remote := WriteAt(remote, fileStartPosition, fileData);
        }
        if endOfFileDetected || errorDetected {
          over := true;
          return;
        }
        if invokeId != 0 {
          fileStartPosition := fileStartPosition + requestedOctetCount;
        }
        ReadChunk();
        invokeId := e.newId;
      }
    }

    /** The loop of main(): it ends early if the run is over. */
    method Run(events: seq<Event>)
      modifies this
      ensures View() == WriteRun(localFile, requestedOctetCount, old(View()), events)
    {
      var k := 0;
      assert events[0..] == events;
      while k < |events| && !over
        invariant 0 <= k <= |events|
        invariant WriteRun(localFile, requestedOctetCount, View(), events[k..])
               == WriteRun(localFile, requestedOctetCount, old(View()), events)
      {
        assert events[k..][0] == events[k] && events[k..][1..] == events[k + 1..];
        Turn(events[k]);
        k := k + 1;
      }
      if over {
        StaysOver(localFile, requestedOctetCount, View(), events[k..]);
      }
    }
  }

  class ReadFile {
    var targetFileStartPosition: nat
    var requestInvokeId: byte
    var endOfFileDetected: bool
    var errorDetected: bool
    var over: bool
    var localFile: File
    ghost var asked: nat
    ghost var got: bool

    ghost function View(): Reader
      reads this
    {
      Reader(targetFileStartPosition, requestInvokeId, asked, endOfFileDetected, errorDetected, over, got, localFile)
    }

    constructor (leftover: File)
      ensures View() == StartReading(leftover)
    {
      targetFileStartPosition, requestInvokeId, endOfFileDetected, errorDetected, over := 0, 0, false, false, false;
      localFile, asked, got := leftover, 0, false;
    }

    /** AtomicReadFileAckHandler. */
    method AtomicReadFileAckHandler(fromTarget: bool, id: byte, ack: Ack, usable: bool)
      modifies this
      ensures View() == AckHandler(old(View()), fromTarget, id, ack, usable)
    {
      if fromTarget && id == requestInvokeId {
        if usable {
          var file := if ack.pos == 0 then [] else localFile; // "wb" or "rb+"
          if ack.pos <= |file| {
            localFile := WriteAt(file, ack.pos, ack.data);
            got := true;
            var octetsWritten := |ack.data|;
            if octetsWritten != 0 {
              targetFileStartPosition := ack.pos + octetsWritten;
            }
          }
        }
        if ack.eof {
          endOfFileDetected := true;
        }
      }
    }

    method LoopTurn(e: Event)
      requires !over
      modifies this
      ensures View() == ReadTurn(old(View()), e)
    {
      if e.Problem? {
        errorDetected := true;
      } else if e.Failed? {
        if requestInvokeId != 0 {
          errorDetected, over := true, true;
        }
      } else if e.Free? {
        if endOfFileDetected || errorDetected {
          over := true;
        } else {
          asked := targetFileStartPosition;
          requestInvokeId := e.newId;
        }
      }
    }

    method Run(events: seq<ReadEvent>)
      modifies this
      ensures View() == ReadRun(old(View()), events)
    {
      var k := 0;
      assert events[0..] == events;
      while k < |events|
        invariant 0 <= k <= |events|
        invariant ReadRun(View(), events[k..]) == ReadRun(old(View()), events)
      {
        assert events[k..][0] == events[k] && events[k..][1..] == events[k + 1..];
        if !over {
          match events[k]
          case Received(fromTarget, id, ack, usable) => AtomicReadFileAckHandler(fromTarget, id, ack, usable);
          case Turn(event) => LoopTurn(event);
        }
        k := k + 1;
      }
    }
  }
}
