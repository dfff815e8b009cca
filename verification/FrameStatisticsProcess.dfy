/** The statistics table of apps/mstpcap, updated in place frame by frame. */
module FrameStatisticsProcess {
  import opened Octets
  import opened FrameStatistics

  function Inc(n: uint32): uint32 {
    (n + 1) % UINT32
  }

  class Statistics {
    const stats: array<Station>
    var oldTv: Time
    var oldFrame: byte
    var oldSrc: byte
    var oldDst: byte
    var oldTokenDst: byte
    ghost var trace: seq<Event>

    /** The static variables hold what the trace of frames calls for. */
    ghost predicate Valid()
      reads this, stats
    {
      && stats.Length == 256
      && (forall s: byte :: stats[s] == StationAfter(trace, s))
      && Remembers(ContextAfter(trace))
    }

    ghost predicate Remembers(x: Context)
      reads this
    {
      && oldTv == x.last.time && oldFrame == x.last.kind && oldSrc == x.last.src && oldDst == x.last.dst
      && oldTokenDst == x.tokenDst
    }

    constructor ()
      ensures Valid() && trace == [] && fresh(stats)
    {
      stats := new Station[256](_ => CLEARED);
      oldTv, oldFrame, oldSrc, oldDst, oldTokenDst := Time(0, 0), 255, 255, 255, 255;
      trace := [];
    }

    /** packet_statistics_clear. */
    method Clear()
      requires Valid()
      modifies this`trace, stats
      ensures Valid() && trace == old(trace) + [Event.Clear]
    {
      var i := 0;
      while i < 256
        invariant trace == old(trace)
        invariant 0 <= i <= 256 && forall s: byte :: s < i ==> stats[s] == CLEARED
      {
        stats[i] := CLEARED;
        i := i + 1;
      }
      trace := trace + [Event.Clear];
      assert trace[..|trace| - 1] == old(trace);
    }

    /** packet_statistics. */
    method Packet(f: Frame)
      requires Valid()
      modifies this, stats
      ensures Valid() && trace == old(trace) + [Seen(f)]
    {
      hide PollEffect, OtherEffect, TokenEffect, StationAfter, ContextAfter;
      ghost var x := ContextAfter(trace);
      if f.kind == TOKEN {
        TokenFrame(x, f);
        oldTokenDst := f.dst;
      } else if f.kind == POLL_FOR_MASTER {
        PollFrame(x, f);
      } else {
        OtherFrame(x, f);
      }
      oldDst, oldSrc, oldFrame, oldTv := f.dst, f.src, f.kind, f.time;
      trace := trace + [Seen(f)];
      assert trace[..|trace| - 1] == old(trace);
      ContextStep(trace, f);
      forall s: byte ensures stats[s] == StationAfter(trace, s) {
        StationStep(trace, s, f);
      }
    }

    method TokenFrame(ghost x: Context, f: Frame)
      requires stats.Length == 256 && Remembers(x) && f.kind == TOKEN
      modifies stats
      ensures forall s: byte :: stats[s] == TokenEffect(s, old(stats[s]), x, f)
    {
      var src, dst := f.src, f.dst;
      stats[src] := stats[src].(tokensSent := Inc(stats[src].tokensSent));
      stats[dst] := stats[dst].(tokensReceived := Inc(stats[dst].tokensReceived));
      if src == dst {
        stats[src] := stats[src].(selfTokens := Inc(stats[src].selfTokens));
      }
      if oldFrame == TOKEN {
        if oldDst == dst && oldSrc == src {
          stats[dst] := stats[dst].(retries := Inc(stats[dst].retries));
          UsageTimeout(src, Millis(oldTv, f.time));
        } else if oldDst == src {
          var delta := Millis(oldTv, f.time);
          if delta > stats[src].tokenReply {
            stats[src] := stats[src].(tokenReply := delta);
          }
        }
      } else if oldFrame == POLL_FOR_MASTER && oldSrc == src {
        UsageTimeout(src, Millis(oldTv, f.time));
      }
      if oldTokenDst != src {
        stats[src] := stats[src].(outOfOrder := Inc(stats[src].outOfOrder));
      }
    }

    /** The lines that keep the usage timeout maximum. */
    method UsageTimeout(src: byte, delta: uint32)
      requires stats.Length == 256
      modifies stats
      ensures stats[src] == old(stats[src]).(usageTimeout := Raise(old(stats[src]).usageTimeout, delta))
      ensures forall s: byte :: s != src ==> stats[s] == old(stats[s])
    {
      if delta > stats[src].usageTimeout {
        stats[src] := stats[src].(usageTimeout := delta);
      }
    }

    method PollFrame(ghost x: Context, f: Frame)
      requires stats.Length == 256 && Remembers(x) && f.kind == POLL_FOR_MASTER
      modifies stats
      ensures stats[f.src] == PollEffect(old(stats[f.src]), x, f)
      ensures forall s: byte :: s != f.src ==> stats[s] == old(stats[s])
    {
      var src, dst := f.src, f.dst;
      if stats[src].lastPollTokens != 0 {
        var npoll := (stats[src].tokensReceived - stats[src].lastPollTokens) % UINT32;
        if npoll > stats[src].npoll {
          stats[src] := stats[src].(npoll := npoll);
        }
      }
      stats[src] := stats[src].(lastPollTokens := stats[src].tokensReceived);
      stats[src] := stats[src].(polls := Inc(stats[src].polls));
      if dst > stats[src].maxMaster {
        stats[src] := stats[src].(maxMaster := dst);
      }
      if oldFrame == POLL_FOR_MASTER && oldSrc == src {
        UsageTimeout(src, Millis(oldTv, f.time));
      }
    }

    method OtherFrame(ghost x: Context, f: Frame)
      requires stats.Length == 256 && Remembers(x) && f.kind != TOKEN && f.kind != POLL_FOR_MASTER
      modifies stats
      ensures stats[f.src] == OtherEffect(old(stats[f.src]), x, f)
      ensures forall s: byte :: s != f.src ==> stats[s] == old(stats[s])
    {
      var src := f.src;
      if f.kind == REPLY_TO_POLL_FOR_MASTER {
        stats[src] := stats[src].(pollReplies := Inc(stats[src].pollReplies));
        if oldFrame == POLL_FOR_MASTER {
          var delta := Millis(oldTv, f.time);
          if delta > stats[src].pollReply {
            stats[src] := stats[src].(pollReply := delta);
          }
        }
      } else if f.kind == TEST_REQUEST {
        stats[src] := stats[src].(testRequests := Inc(stats[src].testRequests));
      } else if f.kind == TEST_RESPONSE {
        stats[src] := stats[src].(testResponses := Inc(stats[src].testResponses));
      } else if f.kind == DATA_EXPECTING_REPLY {
        stats[src] := stats[src].(dataExpecting := Inc(stats[src].dataExpecting));
      } else if f.kind == DATA_NOT_EXPECTING_REPLY {
        stats[src] := stats[src].(dataNotExpecting := Inc(stats[src].dataNotExpecting));
        if oldFrame == DATA_EXPECTING_REPLY && oldDst == src {
          var delta := Millis(oldTv, f.time);
          if delta > stats[src].dataReply {
            stats[src] := stats[src].(dataReply := delta);
          }
        }
        if f.iAm.Some? {
          stats[src] := stats[src].(deviceId := f.iAm.value);
        }
      } else if f.kind == REPLY_POSTPONED {
        stats[src] := stats[src].(postponed := Inc(stats[src].postponed));
        if oldFrame == DATA_EXPECTING_REPLY && oldDst == src {
          var delta := Millis(oldTv, f.time);
          if delta > stats[src].postponedReply {
            stats[src] := stats[src].(postponedReply := delta);
          }
        }
      }
    }
  }
}
