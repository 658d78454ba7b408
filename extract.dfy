/**
 * `do_extract_msg`: the text form of a .MSG container entry.  The pointer
 * table at `header` gives, pair by pair, where each block starts and ends;
 * every block is decoded and written after a label naming its number and
 * its span, and followed by a blank line.
 */
module Extract {
  import opened Bytes
  import opened Wrappers
  import opened Strings
  import opened Hex
  import opened Entry
  import Decoder

  /** `"[Block {}, String: {:04X}-{:04X}]\n"`. */
  function Label(n: nat, start: nat, end: nat): string
  {
    "[Block " + Decimal(n) + ", String: " + HexPad(start, 4) + "-" + HexPad(end, 4) + "]\n"
  }

  /** `ptr_tbl_data`: the table, as many bytes as its first entry says. */
  function TableData(entry: seq<Byte>): seq<Byte>
  {
    PySlice(entry, HEADER, HEADER + TableSize(entry))
  }

  /** The pointer read at `offset` of the table, as an offset into the entry. */
  function BlockStart(entry: seq<Byte>, offset: nat): nat
  {
    HEADER + LeUint(PySlice(TableData(entry), offset, offset + 2))
  }

  /**
   * The pointer after it, or, when that reads as zero (the table has ended),
   * the end of the data that the size field gives.
   */
  function BlockEnd(entry: seq<Byte>, offset: nat): nat
  {
    var end := HEADER + LeUint(PySlice(TableData(entry), offset + 2, offset + 4));
    if end == 2048 then HEADER + SizeField(entry) else end
  }

  /** The bytes of the block whose pointer is at `offset`. */
  function BlockBytes(entry: seq<Byte>, offset: nat): seq<Byte>
  {
    PySlice(entry, BlockStart(entry, offset), BlockEnd(entry, offset))
  }

  /** The block whose pointer is at `offset`, labelled as block `n`, decoded. */
  function Section(entry: seq<Byte>, offset: nat, n: nat): Result<string>
  {
    var text :- Decoder.Decoding(BlockBytes(entry, offset));
    Ok(Label(n, BlockStart(entry, offset), BlockEnd(entry, offset)) + text + "\n\n")
  }

  /** The sections of the blocks whose pointers are at `offset` and after, numbered from `n`. */
  function SectionsFrom(entry: seq<Byte>, offset: nat, n: nat): Result<string>
    decreases TableSize(entry) - offset
  {
    if offset >= TableSize(entry) then Ok("")
    else
      var section :- Section(entry, offset, n);
      Prepended(section, SectionsFrom(entry, offset + 2, n + 1))
  }

  /** `do_extract_msg` on an entry of the .MSG container: the text file it writes. */
  function Extraction(entry: seq<Byte>): Result<string>
  {
    SectionsFrom(entry, 0, 1)
  }

  /** The bytes of each block, in table order, from the pointer at `offset` on. */
  function SpansFrom(entry: seq<Byte>, offset: nat): (r: seq<seq<Byte>>)
    decreases TableSize(entry) - offset
  {
    if offset >= TableSize(entry) then []
    else [BlockBytes(entry, offset)] + SpansFrom(entry, offset + 2)
  }

  /** Each block decoded, in order; the first block that fails to decode fails them all. */
  function DecodeAll(spans: seq<seq<Byte>>): Result<seq<string>>
  {
    if spans == [] then Ok([])
    else
      var text :- Decoder.Decoding(spans[0]);
      Prepended([text], DecodeAll(spans[1..]))
  }

  /**
   * For a table of whole 16-bit entries, block `k` starts where entry `k`
   * points and ends where entry `k + 1` points; after the last entry, or at
   * an entry of zero, it ends where the size field says the data ends.
   */
  lemma BlockBounds(entry: seq<Byte>, k: nat)
    requires |TableData(entry)| % 2 == 0 && k < |Words(TableData(entry))|
    ensures var w := Words(TableData(entry));
      && BlockStart(entry, 2 * k) == HEADER + w[k]
      && BlockEnd(entry, 2 * k) ==
        if k + 1 < |w| && w[k + 1] != 0 then HEADER + w[k + 1] else HEADER + SizeField(entry)
  {
    var data := TableData(entry);
    var w := Words(data);
    assert PySlice(data, 2 * k, 2 * k + 2) == data[2 * k..2 * k + 2];
    if k + 1 < |w| {
      assert PySlice(data, 2 * k + 2, 2 * k + 4) == data[2 * (k + 1)..2 * (k + 1) + 2];
    } else {
      assert PySlice(data, 2 * k + 2, 2 * k + 4) == [];
    }
  }

  /** Every section starts with its label's '['. */
  lemma SectionsOpen(entry: seq<Byte>, offset: nat, n: nat)
    requires SectionsFrom(entry, offset, n).Ok? && SectionsFrom(entry, offset, n).value != []
    ensures SectionsFrom(entry, offset, n).value[0] == '['
  {
  }

  /** The first section of a successful extraction, and the rest. */
  lemma SectionsUnfold(entry: seq<Byte>, offset: nat, n: nat)
    requires offset < TableSize(entry) && SectionsFrom(entry, offset, n).Ok?
    ensures Decoder.Decoding(BlockBytes(entry, offset)).Ok?
    ensures SectionsFrom(entry, offset + 2, n + 1).Ok?
    ensures SectionsFrom(entry, offset, n).value ==
      Label(n, BlockStart(entry, offset), BlockEnd(entry, offset)) + Decoder.Decoding(BlockBytes(entry, offset)).value
      + "\n\n" + SectionsFrom(entry, offset + 2, n + 1).value
  {
  }

  /** The spans from `offset` on: none past the table, else this block's and the rest. */
  lemma SpansUnfold(entry: seq<Byte>, offset: nat)
    ensures offset >= TableSize(entry) ==> SpansFrom(entry, offset) == [] && DecodeAll([]) == Ok([])
    ensures offset < TableSize(entry) ==>
      SpansFrom(entry, offset) == [BlockBytes(entry, offset)] + SpansFrom(entry, offset + 2)
      && DecodeAll(SpansFrom(entry, offset)) ==
        match Decoder.Decoding(BlockBytes(entry, offset))
        case Ok(text) => Prepended([text], DecodeAll(SpansFrom(entry, offset + 2)))
        case Err(e) => Err(e)
  {
    if offset < TableSize(entry) {
      var spans := SpansFrom(entry, offset);
      assert spans[0] == BlockBytes(entry, offset) && spans[1..] == SpansFrom(entry, offset + 2);
    }
  }

  /**
   * The section of the block whose pointer is at `offset` (its label, its
   * decoded text and a blank line), written after `output`.
   */
  method ExtractSection(entry: seq<Byte>, table: seq<Byte>, fileSize: nat, offset: nat, n: nat, output: string)
    returns (r: Result<string>)
    requires table == TableData(entry) && fileSize == SizeField(entry) && offset < TableSize(entry)
    ensures r.Ok? ==> output <= r.value
    ensures Prepended(output, SectionsFrom(entry, offset, n)) ==
      if r.Err? then Err(r.error) else Prepended(r.value, SectionsFrom(entry, offset + 2, n + 1))
  {
    var start, end := ReadBounds(entry, table, fileSize, offset);
    var text := Decoder.DecodeBlock(PySlice(entry, start, end));
    if text.Err? {
      return Err(text.error);
    }
    var section := Label(n, start, end) + text.value + "\n\n";
    PrependedTwice(output, section, SectionsFrom(entry, offset + 2, n + 1));
    r := Ok(output + section);
  }

  /** Past the table there are no more sections. */
  lemma SectionsEnd(entry: seq<Byte>, offset: nat, n: nat, output: string)
    requires offset >= TableSize(entry)
    ensures Prepended(output, SectionsFrom(entry, offset, n)) == Ok(output)
  {
    assert output + "" == output;
  }

  /** Reads where the block whose pointer is at `offset` starts and ends. */
  method ReadBounds(entry: seq<Byte>, table: seq<Byte>, fileSize: nat, offset: nat) returns (start: nat, end: nat)
    requires table == TableData(entry) && fileSize == SizeField(entry)
    ensures start == BlockStart(entry, offset) && end == BlockEnd(entry, offset)
  {
    start := HEADER + LeUint(PySlice(table, offset, offset + 2));
    end := HEADER + LeUint(PySlice(table, offset + 2, offset + 4));
    if end == 2048 {
      end := HEADER + fileSize;
    }
  }

  /**
   * Writes the text form of `entry`, section after section; a block that
   * does not decode stops the extraction with the decoder's error.
   */
  method ExtractMsg(entry: seq<Byte>) returns (r: Result<string>)
    ensures r == Extraction(entry)
  {
    var fileSize := LeUint(PySlice(entry, 4, 8));
    var size := LeUint(PySlice(entry, HEADER, HEADER + 2));
    var table := PySlice(entry, HEADER, HEADER + size);
    var output := "";
    var offset := 0;
    var n := 1;
    assert fileSize == SizeField(entry) && size == TableSize(entry) && table == TableData(entry);
    PrependedNothing(Extraction(entry));
    while offset < size
      invariant Extraction(entry) == Prepended(output, SectionsFrom(entry, offset, n))
    {
      var written := ExtractSection(entry, table, fileSize, offset, n, output);
      if written.Err? {
        return Err(written.error);
      }
      output := written.value;
      offset := offset + 2;
      n := n + 1;
    }
    SectionsEnd(entry, offset, n, output);
    return Ok(output);
  }
}
