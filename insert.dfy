/**
 * `do_insert_msg`: rebuilding a .MSG container entry from its text form.
 * The text is cut into blocks at each '[' label and every block is encoded.
 * A new pointer table is computed from the encoded lengths.  Table and
 * blocks are written over the entry in place at `header`, the new size goes
 * to offset 4, and zeros fill the rest up to the entry's old end.  The
 * entry never grows: a rebuild that does not fit is refused and nothing is
 * written.
 */
module Insert {
  import opened Bytes
  import opened Wrappers
  import opened Strings
  import opened Entry
  import Encoder

  /**
   * The text of the block whose label opens at `i`: from two characters
   * after the label's ']' to two characters before the next '[', or before
   * the end of the text for the last block.
   */
  function BlockText(text: string, i: nat): string
  {
    var labelEnd := Find(text, ']', i + 1);
    var next := Find(text, '[', i + 1);
    if next == -1 then PySlice(text, labelEnd + 2, -2)
    else PySlice(text, labelEnd + 2, next - 2)
  }

  /** The blocks of `text` from index `from` on: one for each '[', in order. */
  function Blocks(text: string, from: nat): seq<string>
    decreases |text| - from
  {
    if from >= |text| then []
    else if text[from] == '[' then [BlockText(text, from)] + Blocks(text, from + 1)
    else Blocks(text, from + 1)
  }

  /** Every block encoded, in order; a block that fails to encode fails the whole text. */
  function EncodeAll(blocks: seq<string>): Result<seq<seq<Byte>>>
  {
    if blocks == [] then Ok([])
    else
      var head :- Encoder.Encoding(blocks[0]);
      Prepended([head], EncodeAll(blocks[1..]))
  }

  /** The text encodes exactly when every block does, and then each block's bytes are its own encoding. */
  lemma {:induction false} EncodedBlocks(blocks: seq<string>)
    ensures EncodeAll(blocks).Ok? <==> forall k :: 0 <= k < |blocks| ==> Encoder.Encoding(blocks[k]).Ok?
    ensures EncodeAll(blocks).Ok? ==> |EncodeAll(blocks).value| == |blocks|
    ensures EncodeAll(blocks).Ok? ==>
      forall k :: 0 <= k < |blocks| ==> Encoder.Encoding(blocks[k]) == Ok(EncodeAll(blocks).value[k])
  {
    if blocks != [] {
      EncodedBlocks(blocks[1..]);
      assert forall k :: 0 < k < |blocks| ==> blocks[k] == blocks[1..][k - 1];
    }
  }

  /** The error reported is that of the first block that fails to encode. */
  lemma {:induction false} FirstFailure(blocks: seq<string>)
    requires EncodeAll(blocks).Err?
    ensures exists k: nat :: FailsFirst(blocks, k, EncodeAll(blocks).error)
  {
    if Encoder.Encoding(blocks[0]).Ok? {
      FirstFailure(blocks[1..]);
      var k: nat :| FailsFirst(blocks[1..], k, EncodeAll(blocks[1..]).error);
      assert Encoder.Encoding(blocks[k + 1]) == Err(EncodeAll(blocks).error);
      assert FailsFirst(blocks, k + 1, EncodeAll(blocks).error) by {
        forall j | 0 <= j < k + 1
          ensures Encoder.Encoding(blocks[j]).Ok?
        {
          if j > 0 {
            assert blocks[j] == blocks[1..][j - 1];
          }
        }
      }
    } else {
      assert FailsFirst(blocks, 0, EncodeAll(blocks).error);
    }
  }

  /** Block `k` is the first block that fails to encode, and it fails with `e`. */
  ghost predicate FailsFirst(blocks: seq<string>, k: nat, e: Error)
  {
    && k < |blocks|
    && Encoder.Encoding(blocks[k]) == Err(e)
    && forall j :: 0 <= j < k ==> Encoder.Encoding(blocks[j]).Ok?
  }

  function Lengths(xs: seq<seq<Byte>>): seq<nat>
  {
    seq(|xs|, k requires 0 <= k < |xs| => |xs[k]|)
  }

  /** `bytes([val for sublist in encoded_block for val in sublist])`. */
  function Flatten(xs: seq<seq<Byte>>): seq<Byte>
  {
    if xs == [] then [] else xs[0] + Flatten(xs[1..])
  }

  /** The offsets that begin at `start` and advance by each length in turn. */
  function Cumulative(start: nat, lengths: seq<nat>): (r: seq<nat>)
    ensures |r| == |lengths| + 1 && r[0] == start
    decreases |lengths|
  {
    if lengths == [] then [start] else [start] + Cumulative(start + lengths[0], lengths[1..])
  }

  /** Each offset is the one before it plus the length between them. */
  lemma {:induction false} CumulativeStep(start: nat, lengths: seq<nat>, j: nat)
    requires j < |lengths|
    ensures Cumulative(start, lengths)[j + 1] == Cumulative(start, lengths)[j] + lengths[j]
    decreases |lengths|
  {
    if j > 0 {
      CumulativeStep(start + lengths[0], lengths[1..], j - 1);
    }
  }

  /**
   * How many pointers follow the first one for `blocks` blocks when the
   * table has room for `half` entries: one per block until the table is full.
   * The block counter starts at 1 and only grows, so with `half == 0` it
   * never reaches `half` and every block gets a pointer.
   */
  function Appended(half: nat, blocks: nat): nat
  {
    if half == 0 || blocks < half then blocks else half - 1
  }

  /** `ptr_table` after the scan, for a table of `size` bytes and blocks of these encoded lengths. */
  function Pointers(size: nat, lengths: seq<nat>): seq<nat>
  {
    Cumulative(size, lengths[..Appended(size / 2, |lengths|)])
  }

  /**
   * The pointer table starts with its own size and each further entry is the
   * previous one plus one block's length, so the entries never decrease.  It
   * has one entry per block plus one, but never more than its old size in
   * bytes allows.
   */
  lemma PointerTable(size: nat, lengths: seq<nat>)
    ensures var t := Pointers(size, lengths);
      && t[0] == size
      && |t| <= |lengths| + 1
      && (size / 2 == 0 || |lengths| < size / 2 ==> |t| == |lengths| + 1)
      && (2 <= size ==> 2 * |t| <= size)
      && (forall j :: 0 <= j < |t| - 1 ==> t[j + 1] == t[j] + lengths[j])
      && (forall j, j' :: 0 <= j <= j' < |t| ==> t[j] <= t[j'])
  {
    var m := Appended(size / 2, |lengths|);
    var t := Pointers(size, lengths);
    forall j | 0 <= j < |t| - 1
      ensures t[j + 1] == t[j] + lengths[j]
    {
      CumulativeStep(size, lengths[..m], j);
    }
    forall j, j' | 0 <= j <= j' < |t|
      ensures t[j] <= t[j']
    {
      CumulativeGrows(size, lengths[..m], j, j');
    }
  }

  lemma {:induction false} CumulativeGrows(start: nat, lengths: seq<nat>, j: nat, j': nat)
    requires j <= j' <= |lengths|
    ensures Cumulative(start, lengths)[j] <= Cumulative(start, lengths)[j']
    decreases j' - j
  {
    if j < j' {
      CumulativeGrows(start, lengths, j, j' - 1);
      CumulativeStep(start, lengths, j' - 1);
    }
  }

  /** One more length extends the offsets by one. */
  lemma {:induction false} CumulativeAppend(start: nat, lengths: seq<nat>, l: nat)
    ensures Cumulative(start, lengths + [l]) == Cumulative(start, lengths) + [Cumulative(start, lengths)[|lengths|] + l]
  {
    var c := Cumulative(start, lengths + [l]);
    var d := Cumulative(start, lengths) + [Cumulative(start, lengths)[|lengths|] + l];
    CumulativeAgrees(start, lengths, lengths + [l]);
    assert forall j :: 0 <= j <= |lengths| ==> c[j] == d[j];
    CumulativeStep(start, lengths + [l], |lengths|);
    assert c[|lengths| + 1] == d[|lengths| + 1];
  }

  /** Offsets depend only on the lengths before them. */
  lemma {:induction false} CumulativeAgrees(start: nat, a: seq<nat>, b: seq<nat>)
    requires a <= b
    ensures forall j :: 0 <= j <= |a| ==> Cumulative(start, a)[j] == Cumulative(start, b)[j]
  {
    var c := Cumulative(start, a);
    var d := Cumulative(start, b);
    forall j | 0 <= j <= |a|
      ensures c[j] == d[j]
    {
      CumulativeAgreesAt(start, a, b, j);
    }
  }

  lemma {:induction false} CumulativeAgreesAt(start: nat, a: seq<nat>, b: seq<nat>, j: nat)
    requires a <= b && j <= |a|
    ensures Cumulative(start, a)[j] == Cumulative(start, b)[j]
  {
    if j > 0 {
      CumulativeAgreesAt(start, a, b, j - 1);
      CumulativeStep(start, a, j - 1);
      CumulativeStep(start, b, j - 1);
      assert a[j - 1] == b[j - 1];
    }
  }

  /** One step of the scan: a new block gets a pointer exactly while the table is not yet full. */
  lemma PointersStep(size: nat, lengths: seq<nat>, l: nat)
    ensures var t := Pointers(size, lengths);
      Pointers(size, lengths + [l]) == if |t| != size / 2 then t + [t[|t| - 1] + l] else t
  {
    var half := size / 2;
    var m := Appended(half, |lengths|);
    var grown := lengths + [l];
    if m + 1 != half {
      assert Appended(half, |grown|) == m + 1;
      assert grown[..m + 1] == lengths[..m] + [l];
      CumulativeAppend(size, lengths[..m], l);
    } else {
      assert Appended(half, |grown|) == m;
      assert grown[..m] == lengths[..m];
    }
  }

  /**
   * The pointer table as written: two little-endian bytes per entry, except
   * that entries equal to the old size field are skipped.  An entry too large
   * for two bytes cannot be written.
   */
  function TableBytes(table: seq<nat>, fileSize: nat): Result<seq<Byte>>
  {
    if table == [] then Ok([])
    else if table[0] == fileSize then TableBytes(table[1..], fileSize)
    else if table[0] >= 0x1_0000 then Err(PointerOutOfRange(table[0]))
    else Prepended(Uint16Bytes(table[0]), TableBytes(table[1..], fileSize))
  }

  /** The entries of `table` that are not equal to `fileSize`, in order. */
  function Kept(table: seq<nat>, fileSize: nat): (r: seq<nat>)
    ensures forall v :: v in r <==> v in table && v != fileSize
    ensures multiset(r) == multiset(table)[fileSize := 0]
  {
    if table == [] then []
    else
      assert table == [table[0]] + table[1..];
      if table[0] == fileSize then Kept(table[1..], fileSize)
      else [table[0]] + Kept(table[1..], fileSize)
  }

  /** Dropping the file size from two tables one after the other drops it from each. */
  lemma {:induction false} KeptAppend(a: seq<nat>, b: seq<nat>, fileSize: nat)
    ensures Kept(a + b, fileSize) == Kept(a, fileSize) + Kept(b, fileSize)
  {
    if a == [] {
      assert a + b == b;
    } else {
      KeptAppend(a[1..], b, fileSize);
      TailAppend(a, b);
      if a[0] != fileSize {
        SeqAssoc([a[0]], Kept(a[1..], fileSize), Kept(b, fileSize));
      }
    }
  }

  /**
   * Writing the table fails exactly when a kept entry does not fit in two
   * bytes; otherwise reading the bytes back as 16-bit words gives the kept
   * entries.
   */
  lemma {:induction false} TableReadsBack(table: seq<nat>, fileSize: nat)
    ensures TableBytes(table, fileSize).Ok? <==> forall v :: v in Kept(table, fileSize) ==> v < 0x1_0000
    ensures TableBytes(table, fileSize).Ok? ==>
      Words(TableBytes(table, fileSize).value) == Kept(table, fileSize) &&
      |TableBytes(table, fileSize).value| == 2 * |Kept(table, fileSize)|
  {
    if table != [] {
      TableReadsBack(table[1..], fileSize);
      var r := TableBytes(table[1..], fileSize);
      if table[0] != fileSize {
        var kept := Kept(table, fileSize);
        assert kept == [table[0]] + Kept(table[1..], fileSize);
        if table[0] >= 0x1_0000 {
          assert kept[0] in kept && kept[0] >= 0x1_0000;
        } else if r.Ok? {
          WordsAppend(Uint16Bytes(table[0]), r.value);
        } else {
          var v :| v in Kept(table[1..], fileSize) && v >= 0x1_0000;
          assert v in kept;
        }
      }
    }
  }

  /** The entry after the rebuild: `data` at `header`, its length in the size field, zeros after it. */
  function Rewritten(entry: seq<Byte>, data: seq<Byte>): seq<Byte>
    requires HEADER + |data| <= |entry| && |data| < 0x1_0000_0000
  {
    entry[..4] + Uint32Bytes(|data|) + entry[8..HEADER] + data + seq(|entry| - HEADER - |data|, _ => 0)
  }

  /** The byte at each offset of the rebuilt entry. */
  lemma RewrittenAt(entry: seq<Byte>, data: seq<Byte>, p: nat)
    requires HEADER + |data| <= |entry| && |data| < 0x1_0000_0000 && p < |entry|
    ensures |Rewritten(entry, data)| == |entry|
    ensures Rewritten(entry, data)[p] ==
      if 4 <= p < 8 then Uint32Bytes(|data|)[p - 4]
      else if p < HEADER then entry[p]
      else if p < HEADER + |data| then data[p - HEADER]
      else 0
  {
  }

  /**
   * The rebuilt entry keeps its length and its bytes outside the size field
   * and the rewritten area; the size field reads back as the length of the
   * data, the data sits at `header`, and only zeros follow it.
   */
  lemma RewrittenLayout(entry: seq<Byte>, data: seq<Byte>)
    requires HEADER + |data| <= |entry| && |data| < 0x1_0000_0000
    ensures var r := Rewritten(entry, data);
      && |r| == |entry|
      && r[..4] == entry[..4]
      && r[8..HEADER] == entry[8..HEADER]
      && SizeField(r) == |data|
      && r[HEADER..HEADER + |data|] == data
      && forall p :: HEADER + |data| <= p < |r| ==> r[p] == 0
  {
    var r := Rewritten(entry, data);
    assert r[4..8] == Uint32Bytes(|data|);
    assert r[HEADER..HEADER + |data|] == data;
  }

  /** `do_insert_msg` on an entry of the .MSG container and the text form of its blocks. */
  function Insertion(entry: seq<Byte>, text: string): Result<seq<Byte>>
    requires |entry| < 0x1_0000_0000
  {
    var encoded :- EncodeAll(Blocks(text, 0));
    var table := Pointers(TableSize(entry), Lengths(encoded));
    var tableBytes :- TableBytes(table, SizeField(entry));
    var data := tableBytes + Flatten(encoded);
    if HEADER + |data| > |entry| then Err(Overflow(HEADER + |data|, |entry|))
    else Ok(Rewritten(entry, data))
  }

  /**
   * The scan over the text: each '[' opens a block, which is encoded, and
   * its length extends the pointer table while the table has room.
   */
  method EncodeBlocks(text: string, size: nat) returns (r: Result<seq<seq<Byte>>>, table: seq<nat>)
    ensures r == EncodeAll(Blocks(text, 0))
    ensures r.Ok? ==> table == Pointers(size, Lengths(r.value))
  {
    table := [size];
    var current := 1;
    var encoded: seq<seq<Byte>> := [];
    var i := 0;
    ghost var lengths: seq<nat> := [];
    ghost var whole := EncodeAll(Blocks(text, 0));
    PrependedNothing(whole);
    PointersStart(size);
    while i < |text|
      invariant 0 <= i <= |text|
      invariant whole == Prepended(encoded, EncodeAll(Blocks(text, i)))
      invariant lengths == Lengths(encoded)
      invariant table == Pointers(size, lengths) && current == |table|
    {
      if text[i] == '[' {
        var block := EncodeBlockAt(text, i, encoded);
        if block.Err? {
          return Err(block.error), table;
        }
        LengthsStep(encoded, block.value);
        table, current := ExtendTable(size, lengths, table, current, |block.value|);
        encoded := encoded + [block.value];
        lengths := lengths + [|block.value|];
      } else {
        BlockSkipped(text, i, encoded);
      }
      i := i + 1;
    }
    BlocksEnd(text, encoded);
    return Ok(encoded), table;
  }

  /**
   * The pointer table after a block of `length` bytes: the block's end is
   * appended unless the table already holds `size / 2` entries.
   */
  method ExtendTable(size: nat, ghost lengths: seq<nat>, table: seq<nat>, current: nat, length: nat)
    returns (t: seq<nat>, c: nat)
    requires table == Pointers(size, lengths) && current == |table|
    ensures t == Pointers(size, lengths + [length]) && c == |t|
  {
    PointersStep(size, lengths, length);
    t, c := table, current;
    if current != size / 2 {
      t := table + [table[|table| - 1] + length];
      c := current + 1;
    }
  }

  /** A block that encodes joins the blocks encoded so far. */
  lemma BlockScanned(text: string, i: nat, encoded: seq<seq<Byte>>, block: seq<Byte>)
    requires i < |text| && text[i] == '[' && Encoder.Encoding(BlockText(text, i)) == Ok(block)
    ensures Prepended(encoded, EncodeAll(Blocks(text, i))) == Prepended(encoded + [block], EncodeAll(Blocks(text, i + 1)))
  {
    PrependedTwice(encoded, [block], EncodeAll(Blocks(text, i + 1)));
  }

  /** Encodes the block whose '[' is at `i`: the blocks encoded so far extend by it, or the text fails with it. */
  method EncodeBlockAt(text: string, i: nat, ghost encoded: seq<seq<Byte>>) returns (block: Result<seq<Byte>>)
    requires i < |text| && text[i] == '['
    ensures block.Err? ==> Prepended(encoded, EncodeAll(Blocks(text, i))) == Err(block.error)
    ensures block.Ok? ==>
      Prepended(encoded, EncodeAll(Blocks(text, i))) == Prepended(encoded + [block.value], EncodeAll(Blocks(text, i + 1)))
  {
    block := Encoder.EncodeTextBlock(BlockText(text, i));
    if block.Err? {
      BlockFailed(text, i, encoded, block.error);
    } else {
      BlockScanned(text, i, encoded, block.value);
    }
  }

  /** Before any block, the table holds only its own size. */
  lemma PointersStart(size: nat)
    ensures Lengths([]) == [] && Pointers(size, []) == [size]
  {
    assert Cumulative(size, []) == [size];
  }

  /** A character other than '[' opens no block. */
  lemma BlockSkipped(text: string, i: nat, encoded: seq<seq<Byte>>)
    requires i < |text| && text[i] != '['
    ensures Prepended(encoded, EncodeAll(Blocks(text, i))) == Prepended(encoded, EncodeAll(Blocks(text, i + 1)))
  {
  }

  /** Past the end of the text there are no more blocks. */
  lemma BlocksEnd(text: string, encoded: seq<seq<Byte>>)
    ensures Prepended(encoded, EncodeAll(Blocks(text, |text|))) == Ok(encoded)
  {
    assert encoded + [] == encoded;
  }

  /** A block that fails to encode fails the whole text. */
  lemma BlockFailed(text: string, i: nat, encoded: seq<seq<Byte>>, e: Error)
    requires i < |text| && text[i] == '[' && Encoder.Encoding(BlockText(text, i)) == Err(e)
    ensures Prepended(encoded, EncodeAll(Blocks(text, i))) == Err(e)
  {
  }

  /** One more block adds its length to the lengths. */
  lemma LengthsStep(encoded: seq<seq<Byte>>, block: seq<Byte>)
    ensures Lengths(encoded + [block]) == Lengths(encoded) + [|block|]
  {
    assert Lengths(encoded + [block])[|encoded|] == |block|;
  }

  /** The pointer table converted to bytes, entry by entry. */
  method PointerBytes(table: seq<nat>, fileSize: nat) returns (r: Result<seq<Byte>>)
    ensures r == TableBytes(table, fileSize)
  {
    var bytes: seq<Byte> := [];
    var k := 0;
    PrependedNothing(TableBytes(table, fileSize));
    while k < |table|
      invariant 0 <= k <= |table|
      invariant TableBytes(table, fileSize) == Prepended(bytes, TableBytes(table[k..], fileSize))
    {
      if table[k] != fileSize {
        if table[k] >= 0x1_0000 {
          return Err(PointerOutOfRange(table[k]));
        }
        PrependedTwice(bytes, Uint16Bytes(table[k]), TableBytes(table[k + 1..], fileSize));
        bytes := bytes + Uint16Bytes(table[k]);
      }
      assert table[k..][1..] == table[k + 1..];
      k := k + 1;
    }
    assert table[|table|..] == [] && bytes + [] == bytes;
    return Ok(bytes);
  }

  /** Writes `data` at `header`, its length at offset 4, and zeros up to the end. */
  method Rewrite(entry: array<Byte>, data: seq<Byte>)
    requires HEADER + |data| <= entry.Length < 0x1_0000_0000
    modifies entry
    ensures entry[..] == Rewritten(old(entry[..]), data)
  {
    forall p | HEADER <= p < HEADER + |data| {
      entry[p] := data[p - HEADER];
    }
    var offset := HEADER + |data|;
    var sizeBytes := Uint32Bytes(offset - HEADER);
    forall p | 4 <= p < 8 {
      entry[p] := sizeBytes[p - 4];
    }
    while offset < entry.Length
      invariant HEADER + |data| <= offset <= entry.Length
      invariant forall p :: 0 <= p < entry.Length ==> (entry[p] ==
        if 4 <= p < 8 then sizeBytes[p - 4]
        else if p < HEADER then old(entry[p])
        else if p < HEADER + |data| then data[p - HEADER]
        else if p < offset then 0
        else old(entry[p]))
    {
      entry[offset] := 0;
      offset := offset + 1;
    }
    forall p | 0 <= p < entry.Length
      ensures entry[p] == Rewritten(old(entry[..]), data)[p]
    {
      RewrittenAt(old(entry[..]), data, p);
    }
    assert entry[..] == Rewritten(old(entry[..]), data);
  }

  /**
   * Rebuilds `entry` in place from `text`.  On failure nothing has been
   * written; on success the entry holds what `Insertion` describes.
   */
  method InsertMsg(entry: array<Byte>, text: string) returns (r: Result<()>)
    requires entry.Length < 0x1_0000_0000
    modifies entry
    ensures Insertion(old(entry[..]), text) == if r.Ok? then Ok(entry[..]) else Err(r.error)
    ensures r.Err? ==> entry[..] == old(entry[..])
  {
    var fileSize := LeUint(PySlice(entry[..], 4, 8));
    var size := LeUint(PySlice(entry[..], HEADER, HEADER + 2));
    var encoded, table := EncodeBlocks(text, size);
    if encoded.Err? {
      return Err(encoded.error);
    }
    var tableBytes := PointerBytes(table, fileSize);
    if tableBytes.Err? {
      return Err(tableBytes.error);
    }
    var payload := Flatten(encoded.value);
    var newSize := HEADER + |tableBytes.value| + |payload|;
    if newSize > entry.Length {
      return Err(Overflow(newSize, entry.Length));
    }
    Rewrite(entry, tableBytes.value + payload);
    return Ok(());
  }
}
