/** Frames of the network layer (section 6.2 of ASHRAE 135): what
    npdu_encode_pdu writes and what npdu_decode makes of a received message. */
module Npdu {
  import opened Octets
  import opened RoutingTable

  datatype Body = Apdu(octets: seq<byte>) | Control(messageType: byte, payload: seq<byte>)

  /** A decoded NPDU; network number 0 stands for an absent specifier. */
  datatype Frame = Frame(destNet: Net, destAdr: Mac, srcNet: Net, srcAdr: Mac, hopCount: byte, body: Body)

  /** `Cut`: the header goes on behind the end of the message, where the decoder
      read whatever the buffer holds.  Length minus offset wraps. */
  datatype Packet = Undecodable | Npdu(frame: Frame) | Cut(frame: Frame)

  const MAX_MAC_LEN: nat := 7
  const MAX_NPDU: nat := 26
  const PROTOCOL_VERSION: byte := 1

  /** npdu_encode_pdu: a source needs a network and an address; the hop count is
      present only with a destination. */
  function Encode(destNet: Net, destAdr: Mac, srcNet: Net, srcAdr: Mac, hopCount: byte, body: Body): Frame {
    var hasSrc := srcNet != 0 && srcAdr != [];
    Frame(destNet, if destNet != 0 then destAdr else [],
          if hasSrc then srcNet else 0, if hasSrc then srcAdr else [],
          if destNet != 0 then hopCount else 0, body)
  }

  // ---- Encoding ----

  function AddressOctets(net: Net, adr: Mac): seq<byte>
    requires |adr| <= MAX_MAC_LEN
  {
    if net == 0 then [] else EncodeUnsigned16(net) + [|adr|] + adr
  }

  /** `low`: whether a reply is expected, and the priority. */
  function ControlOctet(f: Frame, low: byte): byte
    requires low < 8
  {
    (if f.body.Control? then 128 else 0) + (if f.destNet != 0 then 32 else 0) + (if f.srcNet != 0 then 8 else 0) + low
  }

  function Header(f: Frame, low: byte): seq<byte>
    requires low < 8 && |f.destAdr| <= MAX_MAC_LEN && |f.srcAdr| <= MAX_MAC_LEN
  {
    [PROTOCOL_VERSION, ControlOctet(f, low)] + AddressOctets(f.destNet, f.destAdr) + AddressOctets(f.srcNet, f.srcAdr)
    + (if f.destNet != 0 then [f.hopCount] else []) + (if f.body.Control? then [f.body.messageType] else [])
  }

  function Rest(body: Body): seq<byte> {
    match body
    case Apdu(octets) => octets
    case Control(_, payload) => payload
  }

  // ---- Decoding ----

  /** An address specifier and where it ends; it may be too long to be one. */
  datatype Specifier = TooLong | Specifier(net: Net, adr: Mac, end: nat)

  function DecodeAddress(buffer: seq<byte>, present: bool, at: nat): (r: Specifier)
    requires at + 10 <= |buffer|
    ensures r.Specifier? ==> at <= r.end <= at + 10
  {
    if !present then Specifier(0, [], at)
    else if buffer[at + 2] > MAX_MAC_LEN then TooLong
    else
      var end := at + 3 + buffer[at + 2];
      Specifier(DecodeUnsigned16(buffer[at], buffer[at + 1]), buffer[at + 3..end], end)
  }

  /** The decoder is told MAX_NPDU instead of the length received.  A vendor id
      is left in the payload. */
  function Decode(buffer: seq<byte>, length: nat): Packet
    requires MAX_NPDU <= |buffer| && length <= |buffer|
  {
    if buffer[0] != PROTOCOL_VERSION then Undecodable
    else
      var dest := DecodeAddress(buffer, buffer[1] / 32 % 2 == 1, 2);
      if dest.TooLong? then Undecodable
      else
        var src := DecodeAddress(buffer, buffer[1] / 8 % 2 == 1, dest.end);
        if src.TooLong? then Undecodable
        else
          var hopEnd := if dest.net != 0 then src.end + 1 else src.end;
          var hopCount := if dest.net != 0 then buffer[src.end] else 0;
          var control := buffer[1] / 128 == 1;
          var offset := if control then hopEnd + 1 else hopEnd;
          var rest := if offset <= length then buffer[offset..length] else [];
          var body := if control then Control(buffer[hopEnd], rest) else Apdu(rest);
          var frame := Frame(dest.net, dest.adr, src.net, src.adr, hopCount, body);
          if offset <= length then Npdu(frame) else Cut(frame)
  }

  lemma InSequence(a: seq<byte>, b: seq<byte>, c: seq<byte>, d: seq<byte>)
    ensures var h := a + b + c + d; var n := |a| + |b|; var m := n + |c|;
      && h[..|a|] == a && h[|a|..n] == b && h[n..m] == c && h[m..] == d
  {}

  /** The header octet by octet (sections 6.2.1 to 6.2.4): version 1; bit 7 for a
      network layer message, bit 5 for a destination, bit 3 for a source, bits 6
      and 4 clear; the specifiers, network first; the hop count, the message type. */
  lemma HeaderOctets(f: Frame, low: byte)
    requires low < 8 && |f.destAdr| <= MAX_MAC_LEN && |f.srcAdr| <= MAX_MAC_LEN
    ensures var h := Header(f, low);
      var d := if f.destNet == 0 then 2 else 5 + |f.destAdr|; var s := if f.srcNet == 0 then d else d + 3 + |f.srcAdr|;
      && 2 <= d <= s <= |h| && h[0] == 1
      && h[1] == (if f.body.Control? then 128 else 0) + (if f.destNet == 0 then 0 else 32)
                 + (if f.srcNet == 0 then 0 else 8) + low
      && h[2..d] == (if f.destNet == 0 then [] else [f.destNet / 256, f.destNet % 256, |f.destAdr|] + f.destAdr)
      && h[d..s] == (if f.srcNet == 0 then [] else [f.srcNet / 256, f.srcNet % 256, |f.srcAdr|] + f.srcAdr)
      && h[s..] == (if f.destNet == 0 then [] else [f.hopCount])
                   + if f.body.Control? then [f.body.messageType] else []
  {
    hide Header, AddressOctets;
    HeaderSlices(f, low);
    SpecifierOctets(f.destNet, f.destAdr);
    SpecifierOctets(f.srcNet, f.srcAdr);
  }

  lemma HeaderSlices(f: Frame, low: byte)
    requires low < 8 && |f.destAdr| <= MAX_MAC_LEN && |f.srcAdr| <= MAX_MAC_LEN
    ensures var h := Header(f, low); var dest, src := AddressOctets(f.destNet, f.destAdr), AddressOctets(f.srcNet, f.srcAdr);
      && |h| == 2 + |dest| + |src| + |Tail(f)|
      && h[0] == 1 && h[1] == ControlOctet(f, low)
      && h[2..2 + |dest|] == dest && h[2 + |dest|..2 + |dest| + |src|] == src && h[2 + |dest| + |src|..] == Tail(f)
  {
    hide Header, AddressOctets, ControlOctet, Tail;
    HeaderParts(f, low);
    var dest, src := AddressOctets(f.destNet, f.destAdr), AddressOctets(f.srcNet, f.srcAdr);
    InSequence([1, ControlOctet(f, low)], dest, src, Tail(f));
    assert Header(f, low)[..2] == [1, ControlOctet(f, low)];
  }

  lemma SpecifierOctets(net: Net, adr: Mac)
    requires |adr| <= MAX_MAC_LEN
    ensures AddressOctets(net, adr) == if net == 0 then [] else [net / 256, net % 256, |adr|] + adr
  {}

  function Tail(f: Frame): seq<byte> {
    (if f.destNet == 0 then [] else [f.hopCount]) + if f.body.Control? then [f.body.messageType] else []
  }

  lemma HeaderParts(f: Frame, low: byte)
    requires low < 8 && |f.destAdr| <= MAX_MAC_LEN && |f.srcAdr| <= MAX_MAC_LEN
    ensures Header(f, low)
         == [1, ControlOctet(f, low)] + AddressOctets(f.destNet, f.destAdr) + AddressOctets(f.srcNet, f.srcAdr) + Tail(f)
  {
    hide AddressOctets, ControlOctet;
  }

  // ---- Round trip ----

  /** The frames npdu_encode_pdu writes. */
  ghost predicate Sendable(f: Frame) {
    && f == Encode(f.destNet, f.destAdr, f.srcNet, f.srcAdr, f.hopCount, f.body)
    && |f.destAdr| <= MAX_MAC_LEN && |f.srcAdr| <= MAX_MAC_LEN
  }

  /** Where the first `n` octets of the buffer are those that were sent, an
      address in them is read as it is, and one that ends behind them is not
      taken to end in them. */
  lemma AddressWithin(buffer: seq<byte>, n: nat, at: nat, net: Net, adr: Mac)
    requires |adr| <= MAX_MAC_LEN && (net == 0 ==> adr == []) && at + 10 <= |buffer| && n <= |buffer| && at <= n
    requires var octets := AddressOctets(net, adr);
      forall k :: 0 <= k < |octets| && at + k < n ==> buffer[at + k] == octets[k]
    ensures var end := at + |AddressOctets(net, adr)|; var r := DecodeAddress(buffer, net != 0, at);
      if end <= n then r == Specifier(net, adr, end) else r.TooLong? || n < r.end
  {
    var octets := AddressOctets(net, adr);
    if net != 0 {
      assert octets[0] == net / 256 && octets[1] == net % 256 && octets[2] == |adr| && octets[3..] == adr;
      assert at + 2 < n ==> buffer[at + 2] == octets[2];
      if at + |octets| <= n {
        assert buffer[at] == octets[0] && buffer[at + 1] == octets[1];
        assert buffer[at + 3..at + |octets|] == octets[3..];
      }
    }
  }

  lemma ControlBits(f: Frame, low: byte)
    requires low < 8
    ensures var c := ControlOctet(f, low);
      && (c / 128 == 1 <==> f.body.Control?)
      && (c / 32 % 2 == 1 <==> f.destNet != 0)
      && (c / 8 % 2 == 1 <==> f.srcNet != 0)
  {}

  /** The first `n` octets of the buffer are those of the header. */
  ghost predicate Holds(buffer: seq<byte>, header: seq<byte>, n: nat)
    requires n <= |buffer|
  {
    forall k :: 0 <= k < |header| && k < n ==> buffer[k] == header[k]
  }

  lemma DestWithin(f: Frame, low: byte, n: nat, buffer: seq<byte>)
    requires low < 8 && Sendable(f) && MAX_NPDU <= |buffer| && 2 <= n <= |buffer| && Holds(buffer, Header(f, low), n)
    ensures buffer[0] == PROTOCOL_VERSION && buffer[1] == ControlOctet(f, low)
    ensures var end := 2 + |AddressOctets(f.destNet, f.destAdr)|; var r := DecodeAddress(buffer, f.destNet != 0, 2);
      if end <= n then r == Specifier(f.destNet, f.destAdr, end) else r.TooLong? || n < r.end
  {
    hide DecodeAddress, AddressOctets, ControlOctet;
    var header, dest := Header(f, low), AddressOctets(f.destNet, f.destAdr);
    assert buffer[0] == header[0] && buffer[1] == header[1];
    forall k | 0 <= k < |dest| && 2 + k < n ensures buffer[2 + k] == dest[k] {
      assert header[2 + k] == dest[k];
    }
    AddressWithin(buffer, n, 2, f.destNet, f.destAdr);
  }

  lemma SourceWithin(f: Frame, low: byte, n: nat, buffer: seq<byte>)
    requires low < 8 && Sendable(f) && MAX_NPDU <= |buffer| && n <= |buffer| && Holds(buffer, Header(f, low), n)
    requires 2 + |AddressOctets(f.destNet, f.destAdr)| <= n
    ensures var at := 2 + |AddressOctets(f.destNet, f.destAdr)|; var end := at + |AddressOctets(f.srcNet, f.srcAdr)|;
      && at <= 12
      && var r := DecodeAddress(buffer, f.srcNet != 0, at);
         if end <= n then r == Specifier(f.srcNet, f.srcAdr, end) else r.TooLong? || n < r.end
  {
    AddressLength(f.destNet, f.destAdr);
    hide DecodeAddress, AddressOctets, ControlOctet;
    var header, src := Header(f, low), AddressOctets(f.srcNet, f.srcAdr);
    var at := 2 + |AddressOctets(f.destNet, f.destAdr)|;
    forall k | 0 <= k < |src| && at + k < n ensures buffer[at + k] == src[k] {
      assert header[at + k] == src[k];
    }
    AddressWithin(buffer, n, at, f.srcNet, f.srcAdr);
  }

  function WithRest(body: Body, rest: seq<byte>): Body {
    match body
    case Apdu(_) => Apdu(rest)
    case Control(messageType, _) => Control(messageType, rest)
  }

  lemma AddressLength(net: Net, adr: Mac)
    requires |adr| <= MAX_MAC_LEN
    ensures |AddressOctets(net, adr)| <= 10
  {}

  lemma AfterAddresses(f: Frame, low: byte, n: nat, buffer: seq<byte>)
    requires low < 8 && Sendable(f) && MAX_NPDU <= |buffer| && n <= |buffer| && Holds(buffer, Header(f, low), n)
    ensures var at := 2 + |AddressOctets(f.destNet, f.destAdr)| + |AddressOctets(f.srcNet, f.srcAdr)|;
      var hop := if f.destNet != 0 then 1 else 0;
      && |Header(f, low)| == at + hop + (if f.body.Control? then 1 else 0)
      && (f.destNet == 0 ==> f.hopCount == 0)
      && (f.destNet != 0 && at < n ==> buffer[at] == f.hopCount)
      && (f.body.Control? && at + hop < n ==> buffer[at + hop] == f.body.messageType)
  {
    hide AddressOctets, ControlOctet;
    var header := Header(f, low);
    var at := 2 + |AddressOctets(f.destNet, f.destAdr)| + |AddressOctets(f.srcNet, f.srcAdr)|;
    var hop := if f.destNet != 0 then 1 else 0;
    assert f.destNet != 0 ==> header[at] == f.hopCount;
    assert f.body.Control? ==> header[at + hop] == f.body.messageType;
  }

  /** The decoder on a whole header. */
  lemma WholeHeader(f: Frame, low: byte, n: nat, buffer: seq<byte>)
    requires low < 8 && Sendable(f) && MAX_NPDU <= |buffer| && |Header(f, low)| <= n <= |buffer|
    requires Holds(buffer, Header(f, low), n)
    ensures Decode(buffer, n) == Npdu(f.(body := WithRest(f.body, buffer[|Header(f, low)|..n])))
  {
    hide DecodeAddress, AddressOctets, ControlOctet, DecodeUnsigned16, Holds, Header;
    ControlBits(f, low);
    AfterAddresses(f, low, n, buffer);
    DestWithin(f, low, n, buffer);
    SourceWithin(f, low, n, buffer);
  }

  /** The decoder on a header that is cut. */
  lemma {:induction false} CutHeader(f: Frame, low: byte, n: nat, buffer: seq<byte>)
    requires low < 8 && Sendable(f) && MAX_NPDU <= |buffer| && n <= |buffer| && n < |Header(f, low)|
    requires Holds(buffer, Header(f, low), n)
    ensures !Decode(buffer, n).Npdu?
  {
    hide DecodeAddress, AddressOctets, ControlOctet, DecodeUnsigned16, Holds, Header;
    if n >= 2 {
      ControlBits(f, low);
      AfterAddresses(f, low, n, buffer);
      DestWithin(f, low, n, buffer);
      if 2 + |AddressOctets(f.destNet, f.destAdr)| <= n {
        SourceWithin(f, low, n, buffer);
      }
    }
  }

  /** What one router writes is what the next one reads, whatever its buffer
      holds behind the message. */
  lemma FrameRoundTrip(f: Frame, low: byte, stale: seq<byte>)
    requires low < 8 && Sendable(f)
    requires var message := Header(f, low) + Rest(f.body); |message + stale| >= MAX_NPDU
    ensures var message := Header(f, low) + Rest(f.body); Decode(message + stale, |message|) == Npdu(f)
  {
    hide Decode, Header;
    var message := Header(f, low) + Rest(f.body);
    WholeHeader(f, low, |message|, message + stale);
    assert (message + stale)[|Header(f, low)|..|message|] == Rest(f.body);
  }

  /** A message that ends inside its header is never taken for a whole one. */
  lemma CutInHeader(f: Frame, low: byte, n: nat, buffer: seq<byte>)
    requires low < 8 && Sendable(f) && n < |Header(f, low)|
    requires MAX_NPDU <= |buffer| && n <= |buffer| && buffer[..n] == Header(f, low)[..n]
    ensures !Decode(buffer, n).Npdu?
  {
    hide Decode, Header;
    forall k | 0 <= k < |Header(f, low)| && k < n ensures buffer[k] == Header(f, low)[k] {
      assert buffer[..n][k] == Header(f, low)[..n][k];
    }
    CutHeader(f, low, n, buffer);
  }
}
