/** Octets, C integers, and the two-octet network numbers of the network layer. */
module Octets {
  datatype Option<+T> = None | Some(value: T)

  type byte = x: int | 0 <= x < 0x100
  type uint16 = x: int | 0 <= x < 0x1_0000
  type uint32 = x: int | 0 <= x < 0x1_0000_0000
  type Net = uint16

  /** Unsigned 32-bit arithmetic of the C code wraps at this. */
  const UINT32: nat := 0x1_0000_0000

  const BROADCAST_NETWORK: Net := 0xFFFF

  function EncodeUnsigned16(n: Net): seq<byte> {
    [n / 256, n % 256]
  }

  function DecodeUnsigned16(hi: byte, lo: byte): Net {
    hi * 256 + lo
  }

  function EncodeNets(nets: seq<Net>): seq<byte> {
    if nets == [] then [] else EncodeUnsigned16(nets[0]) + EncodeNets(nets[1..])
  }

  function DecodeNets(octets: seq<byte>): seq<Net>
    requires |octets| % 2 == 0
  {
    if octets == [] then [] else [DecodeUnsigned16(octets[0], octets[1])] + DecodeNets(octets[2..])
  }

  lemma {:induction false} EncodeNetsLength(nets: seq<Net>)
    ensures |EncodeNets(nets)| == 2 * |nets|
  {
    if nets == [] {
    } else {
      EncodeNetsLength(nets[1..]);
    }
  }

  lemma {:induction false} NetsRoundTrip(nets: seq<Net>)
    ensures |EncodeNets(nets)| == 2 * |nets| && DecodeNets(EncodeNets(nets)) == nets
  {
    EncodeNetsLength(nets);
    if nets == [] {
    } else {
      NetsRoundTrip(nets[1..]);
      assert EncodeNets(nets)[2..] == EncodeNets(nets[1..]);
    }
  }

  lemma {:induction false} EncodeNetsAppend(a: seq<Net>, b: seq<Net>)
    ensures EncodeNets(a + b) == EncodeNets(a) + EncodeNets(b)
  {
    if a == [] {
      assert a + b == b;
    } else {
      assert (a + b)[1..] == a[1..] + b;
      EncodeNetsAppend(a[1..], b);
    }
  }

  // ---- Network numbers as they stand in a message ----

  function Number(high: byte, low: byte): Net {
    high as int * 256 + low
  }

  /** Two octets a network, the more significant one first. */
  function Listed(payload: seq<byte>): seq<Net> {
    seq(|payload| / 2, k requires 0 <= k < |payload| / 2 => Number(payload[2 * k], payload[2 * k + 1]))
  }

  lemma {:induction false} ListedIsDecoded(payload: seq<byte>)
    requires |payload| % 2 == 0
    ensures DecodeNets(payload) == Listed(payload)
    decreases |payload|
  {
    if |payload| >= 2 {
      ListedIsDecoded(payload[2..]);
      assert Listed(payload) == [DecodeUnsigned16(payload[0], payload[1])] + Listed(payload[2..]);
    }
  }

  // ---- Numbers of any width ----

  /** `k` octets, the least significant one first. */
  function EncodeLittle(n: nat, k: nat): (r: seq<byte>)
    ensures |r| == k
  {
    if k == 0 then [] else [n % 256] + EncodeLittle(n / 256, k - 1)
  }

  function DecodeLittle(octets: seq<byte>): nat {
    if octets == [] then 0 else octets[0] as int + 256 * DecodeLittle(octets[1..])
  }

  /** `k` octets, the most significant one first. */
  function EncodeBig(n: nat, k: nat): (r: seq<byte>)
    ensures |r| == k
  {
    if k == 0 then [] else EncodeBig(n / 256, k - 1) + [n % 256]
  }

  function DecodeBig(octets: seq<byte>): nat {
    if octets == [] then 0 else 256 * DecodeBig(octets[..|octets| - 1]) + octets[|octets| - 1]
  }

  predicate FitsIn(n: nat, k: nat) {
    if k == 0 then n == 0 else FitsIn(n / 256, k - 1)
  }

  lemma {:induction false} LittleRoundTrip(n: nat, k: nat)
    requires FitsIn(n, k)
    ensures DecodeLittle(EncodeLittle(n, k)) == n
  {
    if k == 0 {
    } else {
      LittleRoundTrip(n / 256, k - 1);
      assert EncodeLittle(n, k)[1..] == EncodeLittle(n / 256, k - 1);
    }
  }

  lemma {:induction false} BigRoundTrip(n: nat, k: nat)
    requires FitsIn(n, k)
    ensures DecodeBig(EncodeBig(n, k)) == n
  {
    if k == 0 {
    } else {
      BigRoundTrip(n / 256, k - 1);
      assert EncodeBig(n, k)[..k - 1] == EncodeBig(n / 256, k - 1);
    }
  }

  lemma Fits32(n: uint32)
    ensures FitsIn(n, 4)
  {
    assert n / 256 / 256 / 256 / 256 == 0;
    assert FitsIn(n / 256 / 256 / 256 / 256, 0) && FitsIn(n / 256 / 256 / 256, 1) && FitsIn(n / 256 / 256, 2);
  }
}
