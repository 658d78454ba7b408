# The .MSG dialog-script codec of DashEditor, in Dafny

DashEditor edits the dialog of a PlayStation game.  Its `Formats/MSG.py`
turns a .MSG container entry into an editable text file and back:

- `do_extract_msg` reads the entry's pointer table at offset 0x800
  (`header`) and decodes every block it points to with `do_decode_block`.
  Each block goes into the text file under a label
  `[Block n, String: SSSS-EEEE]`, followed by a blank line.
- `do_insert_msg` cuts such a text file into blocks at each `[`.  It
  encodes every block with `do_encode_text_block` (helped by `tag_args`),
  computes a new pointer table from the encoded lengths, and writes table
  and blocks over the entry.  It then writes the new size into the size
  field and fills the rest of the entry with zeros.
- Both directions use `char_table`, the font table from bytes to glyphs,
  and its inverse.

The project models these operations and proves that they fit together:

- The inverse font table is the exact inverse of the table (`Font`).
- Every block the decoder prints encodes back to the same bytes
  (`RoundTrip.EncodeDecode`), code by code.
- Inserting the text that extraction wrote cuts it into exactly one block
  per section, and re-encodes each one to the bytes it came from
  (`Cycle.ExtractThenInsert`).
- The scanning loops of the source are methods proved equal to recursive
  specification functions (`Decoder.DecodeBlock`,
  `Encoder.EncodeTextBlock`, `Insert.EncodeBlocks`, `Insert.PointerBytes`,
  `Extract.ExtractMsg`).
- The in-place file rewrite is a method on an `array` (`Insert.Rewrite`,
  `Insert.InsertMsg`).

Modules, one per file:

| file | module | models |
|---|---|---|
| `wrappers.dfy` | `Wrappers` | `Option`, `Result` and the `Error` cases of every failure path |
| `bytes.dfy` | `Bytes` | bytes, little-endian integers (`bytes_to_uint`, `uint_to_bytes`, `ulong_to_bytes`) |
| `strings.dfy` | `Strings` | `str.find`, Python slicing, `startswith`/`endswith`, regex `\s` and `\w` |
| `hex.dfy` | `Hex` | `{:02X}`, `{:04X}`, `{}` and `int(s, 16)` |
| `chartable.dfy` | `Font` | `char_table` and `inverse_char_table` |
| `decoder.dfy` | `Decoder` | `do_decode_block` |
| `encoder.dfy` | `Encoder` | `tag_args`, `do_encode_text_block` |
| `roundtrip.dfy` | `RoundTrip` | decode-then-encode, per control code |
| `entry.dfy` | `Entry` | the layout of a container entry: size field, header, pointer table |
| `insert.dfy` | `Insert` | `do_insert_msg` |
| `extract.dfy` | `Extract` | `do_extract_msg` |
| `cycle.dfy` | `Cycle` | extract-then-insert |

## Model

| member | source | states |
|---|---|---|
| Font.CodedBackAll | Formats/MSG.py:10-42 | every byte with a table entry is the byte that the entry's glyph (character or `<TOKEN>`) is stored under |
| Font.DecodedBackAll | Formats/MSG.py:10-42 | every single character the inverse table knows maps to a byte whose table entry is that character |
| Font.TableInjective | Formats/MSG.py:10-42 | no two bytes of the table share an entry, so swapping keys and values loses nothing |
| Font.InverseOfTable | Formats/MSG.py:58 | the inverse dictionary maps every entry of the table back to its byte |
| Font.TableOfInverse | Formats/MSG.py:58 | everything the inverse dictionary returns is a byte whose table entry is the looked-up string |
| Strings.Find | Formats/MSG.py:73 | `str.find`: -1 exactly when the character does not occur from `start` on, else the first index at or after `start` holding it |
| Strings.PySlice | Formats/MSG.py:74 | Python slicing: within bounds it is the ordinary slice, and it is empty when the clamped end is not past the clamped start |
| Strings.WordRun | Formats/MSG.py:49 | the `[^\W]*` run: the longest run of word characters starting at `start` |
| Strings.FirstSpace | Formats/MSG.py:49 | the `\s` search: the first whitespace character from `start` on, or -1 when there is none |
| Bytes.Uint16Bytes | Formats/MSG.py:278 | two bytes that read back, little-endian, as the value written |
| Bytes.Uint32Bytes | Formats/MSG.py:301 | four bytes that read back, little-endian, as the value written |
| Hex.ParseHex | Formats/MSG.py:85 | `int(s, 16)` succeeds exactly on a non-empty run of hex digits; two digits give a byte, four give a 16-bit value |
| Hex.ParseHex2 | Formats/MSG.py:335 | a byte printed with `{:02X}` parses back to the same byte |
| Hex.ParseHex4 | Formats/MSG.py:346 | two bytes printed high then low with `{:02X}{:02X}` parse back as one 16-bit value |
| Hex.ParseHexPad | Formats/MSG.py:454 | a number printed zero-padded in hexadecimal parses back to the same number |
| Hex.HexPadDigits | Formats/MSG.py:454 | `{:04X}` prints only the digits 0-9 and A-F |
| Hex.DecimalDigits | Formats/MSG.py:454 | `{}` of a block number prints only the digits 0-9 |
| Hex.PadTwoDigits | Formats/MSG.py:335 | the two digits printed for a byte are its hexadecimal value zero-padded to width two, as `{:02X}` prints it |
| Encoder.Chunks2 | Formats/MSG.py:50 | `.{1,2}` cuts a string of n characters into (n+1)/2 pieces, every one of two characters except that the last may have one |
| Encoder.Chunks2Concat | Formats/MSG.py:50 | the pieces concatenate back to the string |
| Encoder.Chunks2Pairs | Formats/MSG.py:50 | piece k holds the characters at 2k and 2k+1, or only the one at 2k when the string ends there: the pieces are the left-aligned pairs |
| Encoder.TagArgs | Formats/MSG.py:45-53 | kind "M" always succeeds; kind "S" fails (the source's `IndexError`) exactly when the tag holds no whitespace, and otherwise gives pieces of one or two characters (which pieces exactly is stated by `SpacedArgs`) |
| Encoder.KeyedValues | Formats/MSG.py:52 | every value read after an `=` consists of word characters only |
| Encoder.SpacedArgs | Formats/MSG.py:49-50 | the "S" pieces are the left-aligned pairs of the run of word characters after the tag's first whitespace character: (n+1)/2 of them for a run of n, piece k holding the run's characters 2k and 2k+1 (only 2k at an odd end), and together they join back to the run |
| Encoder.KeyedValuesAfterEquals | Formats/MSG.py:52 | the "M" values are one per `=` of the tag, in order, each the run of word characters right after its `=` |
| Encoder.ParseEach | Formats/MSG.py:84-85 | each argument becomes one byte, its hexadecimal value, in order; it fails exactly when some argument is not hexadecimal |
| Encoder.FieldBytes | Formats/MSG.py:168-172 | a four-digit field becomes two bytes that read little-endian as its value, a two-digit field one byte, any other width nothing; only a malformed two- or four-digit field fails |
| Encoder.FieldsBytes | Formats/MSG.py:167-172 | the fields of a keyed tag are written in order; it fails exactly when one of them fails |
| Encoder.FieldsBytesOne | Formats/MSG.py:167-172 | a single field writes exactly that field's bytes |
| Encoder.FieldsBytesAppend | Formats/MSG.py:167-172 | the fields of `a + b` write the bytes of the fields of `a` followed by those of `b`, and succeed exactly when both halves do |
| Encoder.Apply | Formats/MSG.py:82-215 | a control code's branch writes its opcode first; COLOR writes 0x89 and one byte; the price codes write the opcode and six 0x4F |
| Encoder.SpacedBytes | Formats/MSG.py:82-215 | on any tag, a branch over `tag_args(tag, "S")` writes its opcode and then the parsed values of the pieces, in its own order (reversed for PAUSE); it fails exactly when a piece is not hexadecimal |
| Encoder.ParseArranged | Formats/MSG.py:84-85 | parsing the pieces in reversed order gives the parsed values reversed, and fails exactly when parsing them in order fails |
| Encoder.RawCode | Formats/MSG.py:217-218 | the fallback succeeds exactly when the tag is a hexadecimal number below 256, and then writes that one byte |
| Encoder.EncodeUnit | Formats/MSG.py:64-80 | every unit consumes at least one character and writes at least one byte; a character outside a tag encodes exactly when the inverse table knows it |
| Encoder.GlyphUnit | Formats/MSG.py:67-70 | a character other than '<' encodes to its inverse-table byte and consumes one character, or fails as an unknown glyph |
| Encoder.TagUnit | Formats/MSG.py:72-220 | a '<' encodes as the tag up to the next '>' and consumes the tag, its brackets and, for codes followed by a line break, one more character |
| Encoder.EncodeStep | Formats/MSG.py:64-220 | one pass of the loop body computes the unit at the scan position |
| Encoder.EncodeTextBlock | Formats/MSG.py:56-222 | the loop writes exactly the bytes of the block's encoding, or fails with the first unit that fails |
| Decoder.Step | Formats/MSG.py:316-420 | every unit the decoder reads takes at least one byte and no more than remain |
| Decoder.StepWidth | Formats/MSG.py:334-419 | a byte without a glyph takes the width its control code reads (the table `OpWidth`: PAUSE 3, 0x8A 7 when its seventh byte is 0xFF and 3 otherwise, MENU 10, WIN_MAIN_1 11 or 12 by its second byte, the price codes 7 when six 0x4F follow, and so on for each code of the source); the unit fails with `Truncated` exactly when fewer bytes remain; a byte with no control code prints as `<HH>` and takes one byte |
| Decoder.ScanStep | Formats/MSG.py:331-420 | appending one unit's text keeps the decoded text so far followed by the decoding of the rest equal to the whole decoding |
| Decoder.DecodeBlock | Formats/MSG.py:313-422 | the loop prints exactly the text of the block's decoding, or fails at the first control code whose arguments run past the block |
| RoundTrip.PauseBack | Formats/MSG.py:334-336 | `<PAUSE ..>` and its line break encode back to 0x8B and its two argument bytes |
| RoundTrip.Unk1Back | Formats/MSG.py:337-340 | `<UNK1 ..>` encodes back to 0x8A and the six bytes ending in 0xFF |
| RoundTrip.Unk2Back | Formats/MSG.py:341-343 | `<UNK2 ..>` encodes back to 0x8A and its two bytes |
| RoundTrip.MenuBack | Formats/MSG.py:344-349 | `<MENU PX=.. PY=.. SX=.. SY=.. ?=.. WAT=.. BORDER=..>` encodes back to 0x8C and its nine bytes |
| RoundTrip.Unk3Back | Formats/MSG.py:350-352 | `<UNK3 ..>` encodes back to 0x8E and its two bytes |
| RoundTrip.AudioBack | Formats/MSG.py:353-355 | `<AUDIO ..>` encodes back to 0x8F and its four bytes in their order |
| RoundTrip.ColorCodeBack | Formats/MSG.py:356-358 | `<COLOR ..>` encodes back to 0x89 and its byte |
| RoundTrip.Unk4Back | Formats/MSG.py:359-361 | `<UNK4 ..>` encodes back to 0x93 and its two bytes |
| RoundTrip.SelBack | Formats/MSG.py:362-364 | `<SEL ..>` encodes back to 0x96 and its two bytes |
| RoundTrip.JmpBack | Formats/MSG.py:365-367 | `<JMP ..>` encodes back to 0x99 and its two bytes |
| RoundTrip.Unk5Back | Formats/MSG.py:368-370 | `<UNK5 ..>` encodes back to 0x9A and its two bytes in their order |
| RoundTrip.Unk6Back | Formats/MSG.py:371-373 | `<UNK6 ..>` encodes back to 0x9B and its two bytes in their order |
| RoundTrip.MsgIdBack | Formats/MSG.py:374-376 | `<MSG_ID ..>` encodes back to 0x9C and its two bytes in their order |
| RoundTrip.WinSubBack | Formats/MSG.py:377-379 | `<WIN_SUB ..>` encodes back to 0x9F and its three bytes in their order |
| RoundTrip.PadBack | Formats/MSG.py:380-382 | `<PAD ..>` encodes back to 0xA0 and its two bytes in their order |
| RoundTrip.Window8CBack | Formats/MSG.py:383-388 | `<WIN_MAIN_1 T=8C ..>` encodes back to 0xA1 and its ten bytes |
| RoundTrip.Window94Back | Formats/MSG.py:389-394 | `<WIN_MAIN_1 T=94 ..>` encodes back to 0xA1 and its eleven bytes |
| RoundTrip.Window2Back | Formats/MSG.py:395-400 | `<WIN_MAIN_2 ..>` encodes back to 0xA2 and its ten bytes |
| RoundTrip.WaitBack | Formats/MSG.py:401-403 | `<WAIT ..>` encodes back to 0xA4 and its two bytes in their order |
| RoundTrip.CloseBack | Formats/MSG.py:404-406 | `<CLOSE ..>` encodes back to 0xA9 and its five bytes in their order |
| RoundTrip.ZaireBack | Formats/MSG.py:407-410 | `<PRICE_ZAIRE>` encodes back to 0xBA and six 0x4F |
| RoundTrip.ItemBack | Formats/MSG.py:411-413 | `<ITEM ..>` encodes back to 0xD0 and its four bytes in their order |
| RoundTrip.ZennyBack | Formats/MSG.py:414-417 | `<PRICE_ZENNY>` encodes back to 0xD3 and six 0x4F |
| RoundTrip.RawCodeBack | Formats/MSG.py:418-419 | a byte printed as `<HH>` encodes back to itself |
| RoundTrip.LetterBack | Formats/MSG.py:332 | a glyph the decoder prints from the font table encodes back to its byte, whatever follows it |
| RoundTrip.ControlBack | Formats/MSG.py:334-419 | every control code the decoder prints encodes back to exactly the bytes it read, with the same line-break handling |
| RoundTrip.StepPlain | Formats/MSG.py:334-419 | the names and keys of every tag the decoder prints hold neither '>' nor '[', so the encoder's search for '>' stops at the tag's own end |
| RoundTrip.UnitBack | Formats/MSG.py:331-420 | the first unit the decoder prints, followed by any text, encodes back to the bytes it was read from and consumes exactly its own text |
| RoundTrip.EncodeDecode | Formats/MSG.py:313-422 | every block the decoder turns into text is turned back into the same bytes by the encoder |
| Entry.Words | Formats/MSG.py:444-445 | reading a byte string as 16-bit words gives one value below 65536 per pair |
| Entry.WordsAppend | Formats/MSG.py:444-445 | a pair written in front reads back as the first word, followed by the words of the rest |
| Insert.EncodedBlocks | Formats/MSG.py:264-265 | the text encodes exactly when every block does, and then the k-th encoded block is the encoding of the k-th block |
| Insert.FirstFailure | Formats/MSG.py:264-265 | a failed insertion reports the error of the first block that fails to encode |
| Insert.PointerTable | Formats/MSG.py:239-270 | the table starts with its own size and grows by each block's length, so it never decreases; it has one entry per block plus one, but no more entries than its old size in bytes holds |
| Insert.PointersStep | Formats/MSG.py:267-270 | a new block appends the previous pointer plus its length exactly while the table has fewer than `size // 2` entries |
| Insert.Kept | Formats/MSG.py:276-277 | the entries written are those of the table other than the old size field, in order, each as many times as it occurs (the multiset of the table with the size field removed) |
| Insert.KeptAppend | Formats/MSG.py:276-277 | filtering two tables one after the other gives the two filtered tables one after the other |
| Insert.TableReadsBack | Formats/MSG.py:275-278 | the table is written exactly when every kept entry fits in 16 bits, and its bytes read back as those entries |
| Insert.RewrittenLayout | Formats/MSG.py:294-308 | the rebuilt entry keeps its length and its other bytes; the size field reads back as the length of the new data, the data sits at `header`, and zeros follow |
| Insert.EncodeBlocks | Formats/MSG.py:243-272 | the scan encodes exactly the blocks opened by each '[' and builds the pointer table of their lengths |
| Insert.ExtendTable | Formats/MSG.py:267-270 | one step of the scan extends the pointer table as the table function says |
| Insert.EncodeBlockAt | Formats/MSG.py:251-265 | encoding the block at a '[' either fails the whole text with that block's error or appends the block |
| Insert.PointerBytes | Formats/MSG.py:275-278 | the loop writes the table bytes, skipping the entries equal to the old size field, or fails on an entry too large for 16 bits |
| Insert.Rewrite | Formats/MSG.py:294-308 | the entry, changed in place, becomes the rebuilt entry |
| Insert.InsertMsg | Formats/MSG.py:225-310 | the entry becomes what the insertion describes; an encoding failure, a pointer too large or a rebuild larger than the entry leaves it unchanged |
| Extract.BlockBounds | Formats/MSG.py:444-448 | block k spans from the k-th pointer to the next one, or to the end the size field gives after the last pointer or at a zero pointer; stated for a table of even size (with an odd size the source's loop also visits the last odd offset, reading a one-byte pointer, which is not described) |
| Extract.SectionsUnfold | Formats/MSG.py:453-457 | each section is the label, the decoded block and a blank line, followed by the later sections |
| Extract.ReadBounds | Formats/MSG.py:444-448 | the start and end offsets read for the block at a table offset |
| Extract.ExtractSection | Formats/MSG.py:444-457 | one pass of the loop appends this block's section, or fails with the decoder's error |
| Extract.ExtractMsg | Formats/MSG.py:425-462 | the loop writes exactly the text of the extraction, section after section, or fails at the first block that does not decode |
| Cycle.DecodedUnopened | Formats/MSG.py:313-422 | decoded text never contains '[' |
| Cycle.LabelsShaped | Formats/MSG.py:454 | every label starts with '[', ends with "]\n" and holds no bracket in between |
| Cycle.BlocksSkip | Formats/MSG.py:247-251 | a stretch of text without '[' opens no block |
| Cycle.CutAt | Formats/MSG.py:253-261 | a label, a text without '[', a blank line and then the end or another '[' is cut into exactly one block, that text |
| Cycle.ReencodedAll | Formats/MSG.py:264-265 | blocks that decode are encoded back to the same bytes, block by block |
| Cycle.SectionsSplit | Formats/MSG.py:247-261 | the sections written from a table offset on are cut into the decoded blocks, one per section |
| Cycle.ExtractThenInsert | Formats/MSG.py:443-460 | inserting the extracted text cuts it into the decoded blocks, in table order, and encodes them back to the bytes of the blocks they came from |

## Left out

- File I/O is not modelled. Opening, seeking, reading and writing become values: the entry is a `seq<Byte>` for extraction and an `array<Byte>` for insertion, and the text is a `string`. The progress `print`s are left out.
- The `exit()` on an oversized rebuild is modelled as the result `Err(Overflow(..))`, with the entry left unchanged.
- Insertion in the source also does not write the entry when a block fails to encode or when a pointer does not fit in 16 bits. In the source these are uncaught exceptions; here they are `Err` results.
- The text file is read and written in text mode, so newline translation on Windows is not modelled. The text is the exact sequence of characters.
- When a block fails to decode, the source leaves a partial `.txt` file behind. `Extract.ExtractMsg` only returns the error.
- `bytes_to_uint`, `uint_to_bytes` and `ulong_to_bytes` live in a helper module that is not part of this model. They are taken to be little-endian and unsigned. `uint_to_bytes` is taken to write two bytes and to fail on a value of 65536 or more (`Err(PointerOutOfRange)`).
- Insert.InsertMsg requires the entry to be shorter than 2^32 bytes, so that the four-byte size field can hold any data length that fits.
- Encoder.TagArgs: `\w` is modelled as ASCII letters, digits and '_'. Python's Unicode word characters outside ASCII are not matched, and neither are they by `Strings.IsWordChar`.
- Hex.ParseHex accepts only a non-empty run of hex digits. Python's `int(s, 16)` also accepts a sign, a `0x` prefix, '_' separators and surrounding whitespace. Such tags are not produced by the decoder.
- Encoder.RawCode fails with `ByteOutOfRange` for a value of 256 or more. In the source the value goes into the byte list, and `bytes(...)` raises before anything is written, so the insertion fails either way.
- Extract.BlockBounds: stated only for a pointer table of even size. With an odd size the source's loop also visits the last, odd offset and reads a one-byte pointer there; the model does not describe that block.
- Decoder.Step fails with `Truncated` for a control code whose argument bytes run past the end of the block. In the source, `format` of a missing byte (`None`) raises.
- The GUI (`DashEditor.py`) that calls these functions is not part of this model.
