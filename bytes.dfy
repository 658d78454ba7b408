/**
 * Bytes and the integer helpers of the toolkit's binary module.
 * That module is not part of this model; its three helpers are assumed to be
 * little-endian: an unsigned decode of any number of bytes (zero for none),
 * a 2-byte encode and a 4-byte encode.
 */
module Bytes {

  type Byte = b: int | 0 <= b < 0x100

  /** Little-endian unsigned value of `s` (the helper bytes_to_uint). */
  function LeUint(s: seq<Byte>): (v: nat)
    ensures v < Pow256(|s|)
  {
    if s == [] then 0 else s[0] + 0x100 * LeUint(s[1..])
  }

  function Pow256(n: nat): (p: nat)
    ensures p >= 1
  {
    if n == 0 then 1 else 0x100 * Pow256(n - 1)
  }

  /** The 2-byte little-endian encoding of `v` (the helper uint_to_bytes). */
  function Uint16Bytes(v: nat): (s: seq<Byte>)
    requires v < 0x1_0000
    ensures |s| == 2 && LeUint(s) == v
  {
    [v % 0x100, v / 0x100]
  }

  /** The 4-byte little-endian encoding of `v` (the helper ulong_to_bytes). */
  function Uint32Bytes(v: nat): (s: seq<Byte>)
    requires v < 0x1_0000_0000
    ensures |s| == 4 && LeUint(s) == v
  {
    var q1 := v / 0x100;
    var q2 := q1 / 0x100;
    LeUintOfFour(v % 0x100, q1 % 0x100, q2 % 0x100, q2 / 0x100);
    [v % 0x100, q1 % 0x100, q2 % 0x100, q2 / 0x100]
  }

  lemma LeUintOfFour(b0: Byte, b1: Byte, b2: Byte, b3: Byte)
    ensures LeUint([b0, b1, b2, b3]) == b0 + 0x100 * (b1 + 0x100 * (b2 + 0x100 * b3))
  {
    assert LeUint([b3]) == b3 by { assert [b3][1..] == []; }
    assert LeUint([b2, b3]) == b2 + 0x100 * b3 by { assert [b2, b3][1..] == [b3]; }
    assert LeUint([b1, b2, b3]) == b1 + 0x100 * LeUint([b2, b3]) by { assert [b1, b2, b3][1..] == [b2, b3]; }
    assert [b0, b1, b2, b3][1..] == [b1, b2, b3];
  }

  /** The order in which a control code's argument bytes appear in its text form. */
  datatype Order = InOrder | Reversed

  function Arrange<T>(xs: seq<T>, order: Order): seq<T>
  {
    match order
    case InOrder => xs
    case Reversed => Reverse(xs)
  }

  /** `reversed(s)`. */
  function Reverse<T>(s: seq<T>): (r: seq<T>)
    ensures |r| == |s|
    ensures forall k :: 0 <= k < |s| ==> r[k] == s[|s| - 1 - k]
  {
    if s == [] then [] else Reverse(s[1..]) + [s[0]]
  }

  /** The head and tail of a concatenation whose first part is not empty. */
  lemma TailAppend<T>(a: seq<T>, b: seq<T>)
    requires a != []
    ensures (a + b)[0] == a[0] && (a + b)[1..] == a[1..] + b
  {
  }

  lemma SeqAssoc<T>(p: seq<T>, q: seq<T>, r: seq<T>)
    ensures p + (q + r) == (p + q) + r
  {
  }
}
