/** Octets, and integers as big-endian octets (int_coding: int16_cpy, int_cpy and their inverses). */
module Bytes {
  type byte = x: int | 0 <= x < 256

  type bytes = seq<byte>

  type uint16 = x: int | 0 <= x < 0x1_0000

  type uint32 = x: int | 0 <= x < 0x1_0000_0000

  function Put16(x: uint16): (b: bytes)
    ensures |b| == 2
  {
    [x / 256, x % 256]
  }

  function Get16(b: bytes): uint16
    requires |b| == 2
  {
    var high: int := b[0];
    high * 256 + b[1]
  }

  function Put32(x: uint32): (b: bytes)
    ensures |b| == 4
  {
    Put16(x / 0x1_0000) + Put16(x % 0x1_0000)
  }

  function Get32(b: bytes): uint32
    requires |b| == 4
  {
    Get16(b[..2]) * 0x1_0000 + Get16(b[2..])
  }

  lemma RoundTrip16(x: uint16, b: bytes)
    requires |b| == 2
    ensures Get16(b) == x <==> b == Put16(x)
  {
    assert b == [b[0], b[1]];
  }

  lemma RoundTrip32(x: uint32, b: bytes)
    requires |b| == 4
    ensures Get32(b) == x <==> b == Put32(x)
  {
    RoundTrip16(x / 0x1_0000, b[..2]);
    RoundTrip16(x % 0x1_0000, b[2..]);
    assert b == b[..2] + b[2..];
    assert Put32(x)[..2] == Put16(x / 0x1_0000) && Put32(x)[2..] == Put16(x % 0x1_0000);
  }

  /** memmove of b to place p. */
  method Store(buff: array<byte>, p: nat, b: bytes)
    requires p + |b| <= buff.Length
    modifies buff
    ensures buff[..p + |b|] == old(buff[..p]) + b
    ensures forall i | p + |b| <= i < buff.Length :: buff[i] == old(buff[i])
  {
    forall i | 0 <= i < |b| {
      buff[p + i] := b[i];
    }
  }
}
