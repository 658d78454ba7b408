/**
 * The layout of a .MSG container entry as `do_insert_msg` and
 * `do_extract_msg` read it: a 4-byte size field at offset 4, and at offset
 * 0x800 (`header`) a pointer table of 16-bit little-endian offsets whose
 * first entry is the table's own size in bytes, followed by the encoded
 * blocks.  Reads past the end of the entry come back short, as Python's
 * slices and `read` do.
 */
module Entry {
  import opened Bytes
  import opened Strings

  /** `header`: where the pointer table starts. */
  const HEADER: nat := 0x800

  /** `bytes_to_uint(msg[4:8])`: the size of the table and blocks. */
  function SizeField(entry: seq<Byte>): nat
  {
    LeUint(PySlice(entry, 4, 8))
  }

  /** `bytes_to_uint(msg[header:header + 2])`: the first pointer, which is the table's size in bytes. */
  function TableSize(entry: seq<Byte>): nat
  {
    LeUint(PySlice(entry, HEADER, HEADER + 2))
  }

  /** The 16-bit little-endian values of consecutive byte pairs; an odd last byte is dropped. */
  function Words(bs: seq<Byte>): (r: seq<nat>)
    ensures |r| == |bs| / 2
    ensures forall k :: 0 <= k < |r| ==> r[k] < 0x1_0000
  {
    seq(|bs| / 2, k requires 0 <= k < |bs| / 2 => LeUint(bs[2 * k..2 * k + 2]))
  }

  /** Pairs written one after the other read back one value each. */
  lemma {:induction false} WordsAppend(a: seq<Byte>, b: seq<Byte>)
    requires |a| == 2
    ensures Words(a + b) == [LeUint(a)] + Words(b)
  {
    var ab := a + b;
    forall k | 1 <= k < |ab| / 2
      ensures ab[2 * k..2 * k + 2] == b[2 * (k - 1)..2 * (k - 1) + 2]
    {
    }
    assert ab[..2] == a;
  }
}
