/** The per-station statistics of apps/mstpcap, as what one frame does to the
    entry of one station, and as definitions over the whole trace of frames. */
module FrameStatistics {
  import opened Octets

  const TOKEN: byte := 0
  const POLL_FOR_MASTER: byte := 1
  const REPLY_TO_POLL_FOR_MASTER: byte := 2
  const TEST_REQUEST: byte := 3
  const TEST_RESPONSE: byte := 4
  const DATA_EXPECTING_REPLY: byte := 5
  const DATA_NOT_EXPECTING_REPLY: byte := 6
  const REPLY_POSTPONED: byte := 7

  datatype Time = Time(sec: int, usec: int)

  /** `iAm` is the device id of an I-Am that a data frame was found to carry. */
  datatype Frame = Frame(time: Time, kind: byte, src: byte, dst: byte, iAm: Option<uint32>)

  /** The division of C, which truncates toward zero. */
  function TruncDiv(a: int, b: int): int
    requires b > 0
  {
    if a >= 0 then a / b else -(-a / b)
  }

  function Millis(before: Time, now: Time): uint32 {
    ((now.sec - before.sec) * 1000 + TruncDiv(now.usec - before.usec, 1000)) % UINT32
  }

  /** The difference is off by less than a millisecond, to either side. */
  lemma MillisAreClose(before: Time, now: Time)
    requires 0 <= before.usec < 1000000 && 0 <= now.usec < 1000000
    requires 0 <= (now.sec - before.sec) * 1000000 + now.usec - before.usec < 1000 * (UINT32 - 1)
    ensures var elapsed := (now.sec - before.sec) * 1000000 + now.usec - before.usec;
      -1000 < 1000 * Millis(before, now) - elapsed < 1000
  {
    var d := now.usec - before.usec;
    if d >= 0 {
      assert d == 1000 * (d / 1000) + d % 1000;
    } else {
      assert -d == 1000 * (-d / 1000) + -d % 1000;
    }
  }

  // ---- What a frame means, given the one before it ----

  /** The frame before this one, and where the last token went. */
  datatype Context = Context(last: Frame, tokenDst: byte)

  const START := Context(Frame(Time(0, 0), 255, 255, 255, None), 255)

  datatype Counter =
    | TokensSent | TokensReceived | SelfTokens | OutOfOrderTokens | TokenRetries
    | Polls | PollReplies | TestRequests | TestResponses
    | DataExpecting | DataNotExpecting | RepliesPostponed

  /** Whether the frame counts for the station, by the frame types of clause 9.3. */
  predicate Counts(c: Counter, s: byte, x: Context, f: Frame) {
    match c
    case TokensSent => f.kind == 0 && f.src == s
    case TokensReceived => f.kind == 0 && f.dst == s
    case SelfTokens => f.kind == 0 && f.src == f.dst == s
    case OutOfOrderTokens => f.kind == 0 && f.src == s != x.tokenDst
    case TokenRetries => f.kind == x.last.kind == 0 && x.last.src == f.src && x.last.dst == f.dst == s
    case Polls => f.kind == 1 && f.src == s
    case PollReplies => f.kind == 2 && f.src == s
    case TestRequests => f.kind == 3 && f.src == s
    case TestResponses => f.kind == 4 && f.src == s
    case DataExpecting => f.kind == 5 && f.src == s
    case DataNotExpecting => f.kind == 6 && f.src == s
    case RepliesPostponed => f.kind == 7 && f.src == s
  }

  datatype Maximum = TokenReply | UsageTimeout | PollReply | DataReply | PostponedReply | MaxMaster

  /** Whether the frame gives a value for the maximum of its sender: it follows a
      token or a data frame to it; it is a token sent again, or a token or poll
      after a poll of its own; it answers a poll; it polls. */
  predicate Qualifies(m: Maximum, x: Context, f: Frame) {
    match m
    case TokenReply => f.kind == x.last.kind == 0 && x.last.dst == f.src && !(x.last.src == f.src && x.last.dst == f.dst)
    case UsageTimeout =>
      || (f.kind == x.last.kind == 0 && x.last.src == f.src && x.last.dst == f.dst)
      || ((f.kind == 0 || f.kind == 1) && x.last.kind == 1 && x.last.src == f.src)
    case PollReply => f.kind == 2 && x.last.kind == 1
    case DataReply => f.kind == 6 && x.last.kind == 5 && x.last.dst == f.src
    case PostponedReply => f.kind == 7 && x.last.kind == 5 && x.last.dst == f.src
    case MaxMaster => f.kind == 1
  }

  function ValueOf(m: Maximum, x: Context, f: Frame): uint32 {
    if m.MaxMaster? then f.dst else Millis(x.last.time, f.time)
  }

  function Sample(m: Maximum, s: byte, x: Context, f: Frame): Option<uint32> {
    if f.src == s && Qualifies(m, x, f) then Some(ValueOf(m, x, f)) else None
  }

  // ---- The entry of a station ----

  datatype Station = Station(
    tokensSent: uint32, tokensReceived: uint32, selfTokens: uint32, outOfOrder: uint32, retries: uint32,
    polls: uint32, pollReplies: uint32, testRequests: uint32, testResponses: uint32,
    dataExpecting: uint32, dataNotExpecting: uint32, postponed: uint32,
    tokenReply: uint32, usageTimeout: uint32, pollReply: uint32, dataReply: uint32, postponedReply: uint32,
    maxMaster: byte, npoll: uint32, lastPollTokens: uint32, deviceId: uint32)

  const CLEARED := Station(0, 0, 0, 0, 0, 0, 0, 0, 0, 0, 0, 0, 0, 0, 0, 0, 0, 0, 0, 0, 0xFFFF_FFFF)

  function CountIn(c: Counter, st: Station): uint32 {
    match c
    case TokensSent => st.tokensSent
    case TokensReceived => st.tokensReceived
    case SelfTokens => st.selfTokens
    case OutOfOrderTokens => st.outOfOrder
    case TokenRetries => st.retries
    case Polls => st.polls
    case PollReplies => st.pollReplies
    case TestRequests => st.testRequests
    case TestResponses => st.testResponses
    case DataExpecting => st.dataExpecting
    case DataNotExpecting => st.dataNotExpecting
    case RepliesPostponed => st.postponed
  }

  function MaximumIn(m: Maximum, st: Station): uint32 {
    match m
    case TokenReply => st.tokenReply
    case UsageTimeout => st.usageTimeout
    case PollReply => st.pollReply
    case DataReply => st.dataReply
    case PostponedReply => st.postponedReply
    case MaxMaster => st.maxMaster
  }

  function Bump(n: uint32, counts: bool): uint32 {
    if counts then (n + 1) % UINT32 else n
  }

  function Raise(current: uint32, value: uint32): uint32 {
    if value > current then value else current
  }

  function RaiseIf(v: uint32, value: Option<uint32>): uint32 {
    if value.Some? then Raise(v, value.value) else v
  }

  predicate Repeated(x: Context, f: Frame) {
    f.kind == x.last.kind == TOKEN && x.last.src == f.src && x.last.dst == f.dst
  }

  predicate Answers(x: Context, f: Frame, request: byte) {
    x.last.kind == request && x.last.dst == f.src
  }

  /** What a frame does to the entry of one station: the three kinds of frames
      that change anything, field by field. */
  function Effect(s: byte, st: Station, x: Context, f: Frame): Station {
    if f.kind == TOKEN then TokenEffect(s, st, x, f)
    else if f.src != s then st
    else if f.kind == POLL_FOR_MASTER then PollEffect(st, x, f)
    else OtherEffect(st, x, f)
  }

  function TokenEffect(s: byte, st: Station, x: Context, f: Frame): Station {
    var repeated := Repeated(x, f);
    var timeout := repeated || (x.last.kind == POLL_FOR_MASTER && x.last.src == f.src);
    var delta := Millis(x.last.time, f.time);
    st.(tokensSent := Bump(st.tokensSent, f.src == s),
        tokensReceived := Bump(st.tokensReceived, f.dst == s),
        selfTokens := Bump(st.selfTokens, f.src == f.dst == s),
        outOfOrder := Bump(st.outOfOrder, f.src == s != x.tokenDst),
        retries := Bump(st.retries, repeated && f.dst == s),
        tokenReply := if f.src == s && Answers(x, f, TOKEN) && !repeated then Raise(st.tokenReply, delta) else st.tokenReply,
        usageTimeout := if f.src == s && timeout then Raise(st.usageTimeout, delta) else st.usageTimeout)
  }

  /** Tokens received since the last poll; only kept if any came before it. */
  function Npoll(st: Station): uint32 {
    if st.lastPollTokens == 0 then st.npoll
    else Raise(st.npoll, (st.tokensReceived - st.lastPollTokens) % UINT32)
  }

  function PollEffect(st: Station, x: Context, f: Frame): Station {
    var sole := x.last.kind == POLL_FOR_MASTER && x.last.src == f.src;
    st.(npoll := Npoll(st),
        lastPollTokens := st.tokensReceived,
        polls := Bump(st.polls, true),
        maxMaster := Raise(st.maxMaster, f.dst),
        usageTimeout := if sole then Raise(st.usageTimeout, Millis(x.last.time, f.time)) else st.usageTimeout)
  }

  function OtherEffect(st: Station, x: Context, f: Frame): Station {
    var delta := Millis(x.last.time, f.time);
    var replies := Answers(x, f, DATA_EXPECTING_REPLY);
    if f.kind == REPLY_TO_POLL_FOR_MASTER then
      st.(pollReplies := Bump(st.pollReplies, true),
          pollReply := if x.last.kind == POLL_FOR_MASTER then Raise(st.pollReply, delta) else st.pollReply)
    else if f.kind == TEST_REQUEST then st.(testRequests := Bump(st.testRequests, true))
    else if f.kind == TEST_RESPONSE then st.(testResponses := Bump(st.testResponses, true))
    else if f.kind == DATA_EXPECTING_REPLY then st.(dataExpecting := Bump(st.dataExpecting, true))
    else if f.kind == DATA_NOT_EXPECTING_REPLY then
      st.(dataNotExpecting := Bump(st.dataNotExpecting, true),
          dataReply := if replies then Raise(st.dataReply, delta) else st.dataReply,
          deviceId := if f.iAm.Some? then f.iAm.value else st.deviceId)
    else if f.kind == REPLY_POSTPONED then
      st.(postponed := Bump(st.postponed, true),
          postponedReply := if replies then Raise(st.postponedReply, delta) else st.postponedReply)
    else st
  }

  lemma EffectCounts(c: Counter, s: byte, st: Station, x: Context, f: Frame)
    ensures CountIn(c, Effect(s, st, x, f)) == Bump(CountIn(c, st), Counts(c, s, x, f))
  {
  }

  lemma EffectRaises(m: Maximum, s: byte, st: Station, x: Context, f: Frame)
    ensures MaximumIn(m, Effect(s, st, x, f)) == RaiseIf(MaximumIn(m, st), Sample(m, s, x, f))
  {
  }

  // ---- Traces ----

  datatype Event = Seen(frame: Frame) | Clear

  function ContextAfter(trace: seq<Event>): Context {
    if trace == [] then START
    else
      var x := ContextAfter(trace[..|trace| - 1]);
      match trace[|trace| - 1]
      case Clear => x // clearing leaves the last frame alone
      case Seen(f) => Context(f, if f.kind == TOKEN then f.dst else x.tokenDst)
  }

  function StationAfter(trace: seq<Event>, s: byte): Station {
    if trace == [] then CLEARED
    else
      var before := trace[..|trace| - 1];
      match trace[|trace| - 1]
      case Clear => CLEARED
      case Seen(f) => Effect(s, StationAfter(before, s), ContextAfter(before), f)
  }

  /** The i-th event is a frame that nothing cleared since. */
  ghost predicate Since(trace: seq<Event>, i: nat) {
    i < |trace| && forall j :: i <= j < |trace| ==> trace[j].Seen?
  }

  lemma StationStep(trace: seq<Event>, s: byte, f: Frame)
    requires trace != [] && trace[|trace| - 1] == Seen(f)
    ensures var before := trace[..|trace| - 1];
      StationAfter(trace, s) == Effect(s, StationAfter(before, s), ContextAfter(before), f)
  {
  }

  lemma ContextStep(trace: seq<Event>, f: Frame)
    requires trace != [] && trace[|trace| - 1] == Seen(f)
    ensures ContextAfter(trace) == Context(f, if f.kind == TOKEN then f.dst else ContextAfter(trace[..|trace| - 1]).tokenDst)
  {
  }

  type Marks = (Context, Frame) -> bool

  /** How many frames since the last clear are marked. */
  function CountSince(trace: seq<Event>, marks: Marks): nat {
    if trace == [] || trace[|trace| - 1].Clear? then 0
    else
      var before := trace[..|trace| - 1];
      CountSince(before, marks) + if marks(ContextAfter(before), trace[|trace| - 1].frame) then 1 else 0
  }

  function CountsFor(c: Counter, s: byte): Marks {
    (x, f) => Counts(c, s, x, f)
  }

  lemma BumpModulo(n: nat, counts: bool)
    ensures Bump(n % UINT32, counts) == (n + if counts then 1 else 0) % UINT32
  {
  }

  /** Every counter is the number of its frames since the last clear. */
  lemma {:induction false} CountersAreExact(trace: seq<Event>, c: Counter, s: byte)
    ensures CountIn(c, StationAfter(trace, s)) == CountSince(trace, CountsFor(c, s)) % UINT32
  {
    hide Effect, Counts;
    if trace == [] {
    } else if trace[|trace| - 1].Clear? {
      assert StationAfter(trace, s) == CLEARED;
    } else {
      var before, f := trace[..|trace| - 1], trace[|trace| - 1].frame;
      var x, marks := ContextAfter(before), CountsFor(c, s);
      CountersAreExact(before, c, s);
      StationStep(trace, s, f);
      EffectCounts(c, s, StationAfter(before, s), x, f);
      BumpModulo(CountSince(before, marks), marks(x, f));
      assert CountSince(trace, marks) == CountSince(before, marks) + if marks(x, f) then 1 else 0;
    }
  }

  /** The value a frame gives, knowing what came before it. */
  type Values = (seq<Event>, Frame) -> Option<uint32>

  function ValuesFor(m: Maximum, s: byte): Values {
    (before: seq<Event>, f: Frame) => Sample(m, s, ContextAfter(before), f)
  }

  /** The value that the i-th event gives, if it is a frame that gives one. */
  function ValueAt(trace: seq<Event>, values: Values, i: nat): Option<uint32>
    requires i < |trace|
  {
    if trace[i].Seen? then values(trace[..i], trace[i].frame) else None
  }

  ghost predicate IsValue(trace: seq<Event>, values: Values, v: uint32, i: nat) {
    Since(trace, i) && ValueAt(trace, values, i) == Some(v)
  }

  /** `v` is the largest value since the last clear, or zero if there is none. */
  ghost predicate Largest(trace: seq<Event>, values: Values, v: uint32) {
    && (forall i, w: uint32 :: IsValue(trace, values, w, i) ==> w <= v)
    && (v == 0 || exists i :: IsValue(trace, values, v, i))
  }

  lemma SinceBefore(trace: seq<Event>, i: nat)
    requires i < |trace| - 1 && trace[|trace| - 1].Seen?
    ensures Since(trace, i) <==> Since(trace[..|trace| - 1], i)
    ensures trace[..i] == trace[..|trace| - 1][..i]
  {
    var before := trace[..|trace| - 1];
    if Since(before, i) {
      forall j | i <= j < |trace| ensures trace[j].Seen? {
        assert j < |before| ==> trace[j] == before[j];
      }
    }
  }

  lemma LargestStep(trace: seq<Event>, values: Values, v: uint32)
    requires trace != [] && trace[|trace| - 1].Seen? && Largest(trace[..|trace| - 1], values, v)
    ensures Largest(trace, values, RaiseIf(v, ValueAt(trace, values, |trace| - 1)))
  {
    var n := |trace| - 1;
    var before, v' := trace[..n], RaiseIf(v, ValueAt(trace, values, n));
    forall i: nat, w: uint32 | IsValue(trace, values, w, i) ensures w <= v' {
      if i < n {
        SinceBefore(trace, i);
        assert IsValue(before, values, w, i);
      }
    }
    if v' != 0 {
      if v' == v {
        var i :| IsValue(before, values, v, i);
        SinceBefore(trace, i);
        assert IsValue(trace, values, v', i);
      } else {
        assert IsValue(trace, values, v', n);
      }
    }
  }

  lemma NothingSinceClear(trace: seq<Event>, values: Values)
    requires trace == [] || trace[|trace| - 1].Clear?
    ensures Largest(trace, values, 0)
  {
    forall i: nat ensures !Since(trace, i) {
      if i < |trace| {
        assert !trace[|trace| - 1].Seen?;
      }
    }
  }

  /** Every maximum is the largest of its values.  The frame before the one that
      gives a value may lie before the clear. */
  lemma {:induction false} MaximaAreExact(trace: seq<Event>, m: Maximum, s: byte)
    ensures Largest(trace, ValuesFor(m, s), MaximumIn(m, StationAfter(trace, s)))
  {
    if trace == [] || trace[|trace| - 1].Clear? {
      assert StationAfter(trace, s) == CLEARED;
      NothingSinceClear(trace, ValuesFor(m, s));
    } else {
      var n := |trace| - 1;
      var before, f := trace[..n], trace[n].frame;
      MaximaAreExact(before, m, s);
      LargestStep(trace, ValuesFor(m, s), MaximumIn(m, StationAfter(before, s)));
      StationStep(trace, s, f);
      EffectRaises(m, s, StationAfter(before, s), ContextAfter(before), f);
    }
  }

  // ---- Tokens per poll ----

  /** Where the station last polled for a master since the last clear. */
  function LastPoll(trace: seq<Event>, s: byte): (i: Option<nat>)
    ensures i.Some? ==> i.value < |trace|
  {
    if trace == [] || trace[|trace| - 1].Clear? then None
    else
      var n := |trace| - 1;
      if trace[n].frame.kind == POLL_FOR_MASTER && trace[n].frame.src == s then Some(n) else LastPoll(trace[..n], s)
  }

  function TokensReceivedIn(trace: seq<Event>, s: byte): nat {
    CountSince(trace, CountsFor(TokensReceived, s))
  }

  /** Between two polls of a station: the tokens it received, provided that it
      had received any before the first. */
  function NpollValues(s: byte): Values {
    (before: seq<Event>, f: Frame) =>
      if f.kind != POLL_FOR_MASTER || f.src != s then None
      else
        match LastPoll(before, s)
        case None => None
        case Some(i) =>
          var first := TokensReceivedIn(before[..i], s);
          if first % UINT32 == 0 then None else Some((TokensReceivedIn(before, s) - first) % UINT32)
  }

  lemma EffectOnPolls(s: byte, st: Station, x: Context, f: Frame)
    ensures var st' := Effect(s, st, x, f);
      if f.kind == POLL_FOR_MASTER && f.src == s then st'.npoll == Npoll(st) && st'.lastPollTokens == st.tokensReceived
      else st'.npoll == st.npoll && st'.lastPollTokens == st.lastPollTokens
  {
  }

  lemma {:induction false} LastPollTokensAreExact(trace: seq<Event>, s: byte)
    ensures StationAfter(trace, s).lastPollTokens ==
      match LastPoll(trace, s)
      case None => 0
      case Some(i) => TokensReceivedIn(trace[..i], s) % UINT32
  {
    if trace == [] || trace[|trace| - 1].Clear? {
      assert StationAfter(trace, s) == CLEARED;
    } else {
      var n := |trace| - 1;
      var before, f := trace[..n], trace[n].frame;
      LastPollTokensAreExact(before, s);
      CountersAreExact(before, TokensReceived, s);
      StationStep(trace, s, f);
      EffectOnPolls(s, StationAfter(before, s), ContextAfter(before), f);
      var i := LastPoll(before, s);
      assert i.Some? ==> trace[..i.value] == before[..i.value];
    }
  }

  lemma DifferenceModulo(a: nat, b: nat)
    ensures (a % UINT32 - b % UINT32) % UINT32 == (a - b) % UINT32
  {
    assert a == a / UINT32 * UINT32 + a % UINT32 && b == b / UINT32 * UINT32 + b % UINT32;
    AddMultiple(a % UINT32 - b % UINT32, a / UINT32 - b / UINT32);
  }

  lemma AddMultiple(a: int, k: int)
    ensures (a + k * UINT32) % UINT32 == a % UINT32
  {
    var q := a / UINT32;
    assert a + k * UINT32 == (q + k) * UINT32 + a % UINT32;
  }

  /** npoll is the largest number of tokens between two polls. */
  lemma {:induction false} NpollIsExact(trace: seq<Event>, s: byte)
    ensures Largest(trace, NpollValues(s), StationAfter(trace, s).npoll)
  {
    hide Effect, CountSince, Largest;
    if trace == [] || trace[|trace| - 1].Clear? {
      assert StationAfter(trace, s) == CLEARED;
      NothingSinceClear(trace, NpollValues(s));
    } else {
      var n := |trace| - 1;
      var before, f := trace[..n], trace[n].frame;
      var st := StationAfter(before, s);
      NpollIsExact(before, s);
      LargestStep(trace, NpollValues(s), st.npoll);
      StationStep(trace, s, f);
      EffectOnPolls(s, st, ContextAfter(before), f);
      LastPollTokensAreExact(before, s);
      CountersAreExact(before, TokensReceived, s);
      if LastPoll(before, s).Some? {
        DifferenceModulo(TokensReceivedIn(before, s), TokensReceivedIn(before[..LastPoll(before, s).value], s));
      }
      assert StationAfter(trace, s).npoll == RaiseIf(st.npoll, NpollValues(s)(before, f));
    }
  }

  // ---- Tokens are conserved ----

  function TokensIn(trace: seq<Event>): nat {
    CountSince(trace, (x: Context, f: Frame) => f.kind == TOKEN)
  }

  /** Over the first `n` stations: the counts of the trace, and the entries. */
  function SumOfCounts(trace: seq<Event>, c: Counter, n: nat): nat
    requires n <= 256
  {
    if n == 0 then 0 else SumOfCounts(trace, c, n - 1) + CountSince(trace, CountsFor(c, n - 1))
  }

  function SumOfEntries(trace: seq<Event>, c: Counter, n: nat): nat
    requires n <= 256
  {
    if n == 0 then 0 else SumOfEntries(trace, c, n - 1) + CountIn(c, StationAfter(trace, n - 1))
  }

  lemma {:induction false} SumAfterClear(trace: seq<Event>, c: Counter, n: nat)
    requires n <= 256 && (trace == [] || trace[|trace| - 1].Clear?)
    ensures SumOfCounts(trace, c, n) == 0
  {
    if n == 0 {
    } else {
      SumAfterClear(trace, c, n - 1);
    }
  }

  lemma {:induction false} SumAfterFrame(trace: seq<Event>, c: Counter, n: nat, x: Context, f: Frame, credited: int)
    requires n <= 256 && trace != [] && trace[|trace| - 1] == Seen(f) && x == ContextAfter(trace[..|trace| - 1])
    requires forall s: byte :: Counts(c, s, x, f) <==> s == credited
    ensures SumOfCounts(trace, c, n) == SumOfCounts(trace[..|trace| - 1], c, n) + if 0 <= credited < n then 1 else 0
  {
    if n == 0 {
    } else {
      SumAfterFrame(trace, c, n - 1, x, f, credited);
    }
  }

  lemma {:induction false} EveryTokenOnce(trace: seq<Event>, c: Counter)
    requires c == TokensSent || c == TokensReceived
    ensures SumOfCounts(trace, c, 256) == TokensIn(trace)
  {
    if trace == [] || trace[|trace| - 1].Clear? {
      SumAfterClear(trace, c, 256);
    } else {
      var n := |trace| - 1;
      var f := trace[n].frame;
      EveryTokenOnce(trace[..n], c);
      SumAfterFrame(trace, c, 256, ContextAfter(trace[..n]), f,
                    if f.kind != TOKEN then -1 else if c == TokensSent then f.src else f.dst);
    }
  }

  lemma {:induction false} EntriesModulo(trace: seq<Event>, c: Counter, n: nat)
    requires n <= 256
    ensures SumOfEntries(trace, c, n) % UINT32 == SumOfCounts(trace, c, n) % UINT32
    ensures SumOfCounts(trace, c, n) < UINT32 ==> SumOfEntries(trace, c, n) == SumOfCounts(trace, c, n)
  {
    if n == 0 {
    } else {
      EntriesModulo(trace, c, n - 1);
      var k := CountSince(trace, CountsFor(c, n - 1));
      EntryModulo(trace, c, n - 1);
      SumModulo(SumOfEntries(trace, c, n - 1), SumOfCounts(trace, c, n - 1), k);
    }
  }

  lemma {:induction false} EntryModulo(trace: seq<Event>, c: Counter, s: byte)
    ensures CountIn(c, StationAfter(trace, s)) == CountSince(trace, CountsFor(c, s)) % UINT32
    ensures CountSince(trace, CountsFor(c, s)) < UINT32
            ==> CountIn(c, StationAfter(trace, s)) == CountSince(trace, CountsFor(c, s))
  {
    CountersAreExact(trace, c, s);
  }

  lemma SumModulo(a: nat, b: nat, k: nat)
    requires a % UINT32 == b % UINT32
    ensures (a + k % UINT32) % UINT32 == (b + k) % UINT32
  {
    AddMultiple(a + k % UINT32, k / UINT32);
    AddMultiple(b + k, a / UINT32 - b / UINT32);
    assert a + k == a + k % UINT32 + k / UINT32 * UINT32;
    assert a + k == b + k + (a / UINT32 - b / UINT32) * UINT32;
  }

  /** Tokens sent and tokens received, summed over all stations, both are the
      token frames since the last clear (as 32-bit sums). */
  lemma {:induction false} TokensAreConserved(trace: seq<Event>)
    ensures SumOfEntries(trace, TokensSent, 256) % UINT32 == TokensIn(trace) % UINT32
    ensures SumOfEntries(trace, TokensReceived, 256) % UINT32 == TokensIn(trace) % UINT32
    ensures TokensIn(trace) < UINT32 ==>
      SumOfEntries(trace, TokensSent, 256) == SumOfEntries(trace, TokensReceived, 256) == TokensIn(trace)
  {
    EveryTokenOnce(trace, TokensSent);
    EveryTokenOnce(trace, TokensReceived);
    EntriesModulo(trace, TokensSent, 256);
    EntriesModulo(trace, TokensReceived, 256);
  }

  // ---- The device id, and what came before ----

  /** The i-th event is a frame in which the station announces itself as `id`. */
  ghost predicate Announces(trace: seq<Event>, i: nat, s: byte, id: uint32) {
    i < |trace| && trace[i].Seen?
    && trace[i].frame.kind == DATA_NOT_EXPECTING_REPLY && trace[i].frame.src == s && trace[i].frame.iAm == Some(id)
  }

  ghost predicate Quiet(trace: seq<Event>, i: nat, s: byte) {
    forall id: uint32 :: !Announces(trace, i, s, id)
  }

  ghost predicate Silent(trace: seq<Event>, i: nat, s: byte) {
    forall j: nat, id: uint32 :: i <= j && Since(trace, j) ==> !Announces(trace, j, s, id)
  }

  ghost predicate LastAnnouncement(trace: seq<Event>, i: nat, s: byte, id: uint32) {
    Since(trace, i) && Announces(trace, i, s, id) && Silent(trace, i + 1, s)
  }

  lemma OnlyAnnouncementsSetTheId(s: byte, st: Station, x: Context, f: Frame)
    ensures Effect(s, st, x, f).deviceId
         == if f.kind == DATA_NOT_EXPECTING_REPLY && f.src == s && f.iAm.Some? then f.iAm.value else st.deviceId
  {}

  lemma SilentBefore(trace: seq<Event>, i: nat, s: byte)
    requires trace != [] && trace[|trace| - 1].Seen? && i < |trace|
    ensures Silent(trace, i, s)
            <==> Silent(trace[..|trace| - 1], i, s) && Quiet(trace, |trace| - 1, s)
  {
    var n := |trace| - 1;
    assert Since(trace, n);
    forall j: nat, id: uint32 | i <= j < n
      ensures Since(trace, j) == Since(trace[..n], j) && Announces(trace, j, s, id) == Announces(trace[..n], j, s, id)
    {
      SinceBefore(trace, j);
    }
  }

  /** The device id of a station is that of its last I-Am since the last clear,
      or the one that stands for none. */
  lemma {:induction false} DeviceIdIsLatest(trace: seq<Event>, s: byte)
    ensures var id := StationAfter(trace, s).deviceId;
      || (exists i :: LastAnnouncement(trace, i, s, id))
      || (id == 0xFFFF_FFFF && Silent(trace, 0, s))
  {
    hide Effect, Silent;
    var n := |trace| - 1;
    if trace == [] || trace[n].Clear? {
      NothingSince(trace, s);
    } else {
      var before, f := trace[..n], trace[n].frame;
      var id := StationAfter(trace, s).deviceId;
      DeviceIdIsLatest(before, s);
      StationStep(trace, s, f);
      OnlyAnnouncementsSetTheId(s, StationAfter(before, s), ContextAfter(before), f);
      if f.kind == DATA_NOT_EXPECTING_REPLY && f.src == s && f.iAm.Some? {
        NothingAfter(trace, s);
        assert LastAnnouncement(trace, n, s, id);
      } else if i: nat :| LastAnnouncement(before, i, s, id) {
        SinceBefore(trace, i);
        SilentUntil(trace, i + 1, s);
        assert LastAnnouncement(trace, i, s, id);
      } else {
        SilentUntil(trace, 0, s);
      }
    }
  }

  lemma NothingSince(trace: seq<Event>, s: byte)
    requires trace == [] || trace[|trace| - 1].Clear?
    ensures StationAfter(trace, s).deviceId == 0xFFFF_FFFF && Silent(trace, 0, s)
  {
    forall i: nat ensures !Since(trace, i) {
      if i < |trace| {
        assert !trace[|trace| - 1].Seen?;
      }
    }
  }

  lemma NothingAfter(trace: seq<Event>, s: byte)
    ensures Silent(trace, |trace|, s)
  {}

  lemma SilentUntil(trace: seq<Event>, i: nat, s: byte)
    requires trace != [] && trace[|trace| - 1].Seen? && i < |trace| && Silent(trace[..|trace| - 1], i, s)
    requires Quiet(trace, |trace| - 1, s)
    ensures Silent(trace, i, s)
  {
    SilentBefore(trace, i, s);
  }

  /** The last frame of those marked, cleared or not. */
  function LastMarked(trace: seq<Event>, marked: Frame -> bool): Option<Frame> {
    if trace == [] then None
    else
      var last := trace[|trace| - 1];
      if last.Seen? && marked(last.frame) then Some(last.frame) else LastMarked(trace[..|trace| - 1], marked)
  }

  /** What a frame is compared with: the frame before it and the last token frame,
      whether or not the statistics were cleared in between. */
  lemma {:induction false} ContextIsHistory(trace: seq<Event>)
    ensures var x := ContextAfter(trace); var last := LastMarked(trace, f => true);
      x.last == if last.Some? then last.value else Frame(Time(0, 0), 255, 255, 255, None)
    ensures var x := ContextAfter(trace); var token := LastMarked(trace, (f: Frame) => f.kind == 0);
      x.tokenDst == if token.Some? then token.value.dst else 255
  {
    if trace == [] {
    } else {
      ContextIsHistory(trace[..|trace| - 1]);
    }
  }
}
