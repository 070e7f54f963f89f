/** Bytes and the integer fields of AMQP 0-9-1 (section 4.2.5.1 of the AMQP
    0-9-1 specification): unsigned, most significant byte first. */
module Bytes {
  type byte = x: int | 0 <= x < 0x100
  type uint16 = x: int | 0 <= x < 0x1_0000
  type uint32 = x: int | 0 <= x < 0x1_0000_0000
  type uint64 = x: int | 0 <= x < 0x1_0000_0000_0000_0000

  /** binary.BigEndian.Uint16 of the two bytes at `i`. */
  function U16(b: seq<byte>, i: nat): uint16
    requires i + 2 <= |b|
  {
    var hi: int, lo: int := b[i], b[i + 1];
    hi * 0x100 + lo
  }

  function U32(b: seq<byte>, i: nat): uint32
    requires i + 4 <= |b|
  {
    var hi: int, lo: int := U16(b, i), U16(b, i + 2);
    hi * 0x1_0000 + lo
  }

  function U64(b: seq<byte>, i: nat): uint64
    requires i + 8 <= |b|
  {
    var hi: int, lo: int := U32(b, i), U32(b, i + 4);
    hi * 0x1_0000_0000 + lo
  }

  function Put16(x: uint16): (b: seq<byte>)
    ensures |b| == 2 && U16(b, 0) == x
  {
    [x / 0x100, x % 0x100]
  }

  function Put32(x: uint32): (b: seq<byte>)
    ensures |b| == 4 && U32(b, 0) == x
  {
    Put16(x / 0x1_0000) + Put16(x % 0x1_0000)
  }

  function Put64(x: uint64): (b: seq<byte>)
    ensures |b| == 8 && U64(b, 0) == x
  {
    var b := Put32(x / 0x1_0000_0000) + Put32(x % 0x1_0000_0000);
    ReadInside([], Put32(x / 0x1_0000_0000), Put32(x % 0x1_0000_0000));
    ReadInside(Put32(x / 0x1_0000_0000), Put32(x % 0x1_0000_0000), []);
    assert Put32(x / 0x1_0000_0000) + Put32(x % 0x1_0000_0000) + [] == b;
    assert [] + Put32(x / 0x1_0000_0000) + Put32(x % 0x1_0000_0000) == b;
    b
  }

  /** The numbers that two and four bytes stand for. */
  function TwoBytes(a: int, b: int): int {
    a * 256 + b
  }

  function FourBytes(a: int, b: int, c: int, d: int): int {
    a * 16_777_216 + b * 65_536 + c * 256 + d
  }

  lemma BigEndian(b: seq<byte>, i: nat)
    ensures i + 2 <= |b| ==> U16(b, i) == TwoBytes(b[i], b[i + 1])
    ensures i + 4 <= |b| ==> U32(b, i) == FourBytes(b[i], b[i + 1], b[i + 2], b[i + 3])
    ensures i + 8 <= |b| ==>
              U64(b, i) ==
              FourBytes(b[i], b[i + 1], b[i + 2], b[i + 3]) * 4_294_967_296 +
              FourBytes(b[i + 4], b[i + 5], b[i + 6], b[i + 7])
  {
  }

  /** Integers read the same wherever their bytes stand. */
  lemma ReadInside(before: seq<byte>, field: seq<byte>, after: seq<byte>)
    ensures var b := before + field + after;
            (|field| >= 2 ==> U16(b, |before|) == U16(field, 0)) &&
            (|field| >= 4 ==> U32(b, |before|) == U32(field, 0)) &&
            (|field| >= 8 ==> U64(b, |before|) == U64(field, 0))
  {
    var b := before + field + after;
    assert forall k :: 0 <= k < |field| ==> b[|before| + k] == field[k];
  }

  /** Writing back what was read gives the bytes read. */
  lemma Put16Back(b: seq<byte>, i: nat)
    requires i + 2 <= |b|
    ensures Put16(U16(b, i)) == b[i..i + 2]
  {
  }

  lemma Put32Back(b: seq<byte>, i: nat)
    requires i + 4 <= |b|
    ensures Put32(U32(b, i)) == b[i..i + 4]
  {
    hide Put16, U16;
    Put16Back(b, i);
    Put16Back(b, i + 2);
    assert b[i..i + 4] == b[i..i + 2] + b[i + 2..i + 4];
  }

  lemma Put64Back(b: seq<byte>, i: nat)
    requires i + 8 <= |b|
    ensures Put64(U64(b, i)) == b[i..i + 8]
  {
    hide Put32, U32;
    Put32Back(b, i);
    Put32Back(b, i + 4);
    assert b[i..i + 8] == b[i..i + 4] + b[i + 4..i + 8];
  }
}
