/**
 * Decoding one block of dialog bytes into its text form
 * (`do_decode_block` in Formats/MSG.py).
 *
 * The scan reads one unit at a time: a byte with an entry in the font table
 * prints its glyph; otherwise the byte is a control code, printed as a tag
 * in angle brackets that spells out the argument bytes following it in
 * hexadecimal; a byte that is neither prints as a raw tag `<HH>`.  Some
 * control codes are followed by a line break in the text form.
 */
module Decoder {
  import opened Bytes
  import opened Wrappers
  import opened Hex
  import opened Font

  /** A named field of a control code: `KEY=HH` or `KEY=HHHH`. */
  datatype Field = Field(key: string, value: seq<Byte>)

  /** A control code as the text form writes it, between angle brackets. */
  datatype Tag =
    | Listed(name: string, args: seq<Byte>)     // NAME HHHH..: the argument bytes as one run of digits
    | Keyed(name: string, fields: seq<Field>)   // NAME K=HH K=HHHH ..: one field per argument
    | Bare(name: string)                        // NAME alone
    | Raw(b: Byte)                              // HH: a byte with no meaning of its own

  datatype Piece = Letter(g: Glyph) | Control(tag: Tag, newline: bool)

  /** One step of the scan: the text it prints and the number of bytes it reads. */
  datatype Unit = Unit(piece: Piece, width: nat)

  function FieldsText(fs: seq<Field>): string
  {
    if fs == [] then "" else " " + fs[0].key + "=" + HexRun(fs[0].value) + FieldsText(fs[1..])
  }

  function TagText(t: Tag): string
  {
    match t
    case Listed(name, args) => name + " " + HexRun(args)
    case Keyed(name, fields) => name + FieldsText(fields)
    case Bare(name) => name
    case Raw(b) => Hex2(b)
  }

  function PieceText(p: Piece): string
  {
    match p
    case Letter(g) => Text(g)
    case Control(t, newline) => "<" + TagText(t) + ">" + (if newline then "\n" else "")
  }

  /** The fields of a keyed control code: each key with its width in bytes. */
  type Layout = seq<(string, nat)>

  const MENU_LAYOUT: Layout :=
    [("PX", 2), ("PY", 2), ("SX", 1), ("SY", 1), ("?", 1), ("WAT", 1), ("BORDER", 1)]
  const WINDOW_LAYOUT: Layout :=
    [("T", 1), ("PX", 2), ("PY", 2), ("SX", 1), ("SY", 1), ("?", 1), ("WAT", 1), ("BORDER", 1)]
  const WINDOW_94_LAYOUT: Layout :=
    [("T", 1), ("?", 1), ("PX", 2), ("PY", 2), ("SX", 1), ("SY", 1), ("?", 1), ("WAT", 1), ("BORDER", 1)]

  function Total(layout: Layout): nat
  {
    if layout == [] then 0 else layout[0].1 + Total(layout[1..])
  }

  /** The bytes a keyed control code takes: its opcode and its fields. */
  function Span(layout: Layout): nat
  {
    1 + Total(layout)
  }

  /** Cuts argument bytes into the fields of a layout; a two-byte field prints its high (second) byte first. */
  function Cut(layout: Layout, xs: seq<Byte>): seq<Field>
    requires |xs| == Total(layout)
  {
    if layout == [] then []
    else [Field(layout[0].0, Reverse(xs[..layout[0].1]))] + Cut(layout[1..], xs[layout[0].1..])
  }

  /** A control code of `width` bytes whose arguments print as one run. */
  function ListedCode(bs: seq<Byte>, name: string, width: nat, order: Order, newline: bool): (u: Result<Unit>)
    requires bs != [] && 1 <= width
    ensures u.Ok? ==> u.value.width == width <= |bs|
  {
    if |bs| < width then Err(Truncated(bs[0]))
    else Ok(Unit(Control(Listed(name, Arrange(bs[1..width], order)), newline), width))
  }

  /** A control code whose arguments print as the named fields of `layout`. */
  function KeyedCode(bs: seq<Byte>, name: string, layout: Layout, newline: bool): (u: Result<Unit>)
    requires bs != []
    ensures u.Ok? ==> 1 <= u.value.width <= |bs|
  {
    var width := Span(layout);
    if |bs| < width then Err(Truncated(bs[0]))
    else Ok(Unit(Control(Keyed(name, Cut(layout, bs[1..width])), newline), width))
  }

  /** Six spaces (0x4F) follow the first byte. */
  predicate PriceFollows(bs: seq<Byte>)
  {
    7 <= |bs| && forall k :: 1 <= k < 7 ==> bs[k] == 0x4F
  }

  /**
   * The unit at the start of `bs`.  A control code whose argument bytes run
   * past the end of the block fails: the source formats a missing byte,
   * which raises.
   */
  function Step(bs: seq<Byte>): (u: Result<Unit>)
    requires bs != []
    ensures u.Ok? ==> 1 <= u.value.width <= |bs|
  {
    var op := bs[0];
    if CharTable(op).Some? then Ok(Unit(Letter(CharTable(op).value), 1))
    else if op == 0x8B then ListedCode(bs, "PAUSE", 3, Reversed, true)
    else if op == 0x8A && 7 <= |bs| && bs[6] == 0xFF then ListedCode(bs, "UNK1", 7, InOrder, true)
    else if op == 0x8A then ListedCode(bs, "UNK2", 3, InOrder, false)
    else if op == 0x8C then KeyedCode(bs, "MENU", MENU_LAYOUT, true)
    else if op == 0x8E then ListedCode(bs, "UNK3", 3, InOrder, false)
    else if op == 0x8F then ListedCode(bs, "AUDIO", 5, Reversed, true)
    else if op == 0x89 then ListedCode(bs, "COLOR", 2, InOrder, false)
    else if op == 0x93 then ListedCode(bs, "UNK4", 3, InOrder, false)
    else if op == 0x96 then ListedCode(bs, "SEL", 3, InOrder, false)
    else if op == 0x99 then ListedCode(bs, "JMP", 3, InOrder, false)
    else if op == 0x9A then ListedCode(bs, "UNK5", 3, Reversed, false)
    else if op == 0x9B then ListedCode(bs, "UNK6", 3, Reversed, false)
    else if op == 0x9C then ListedCode(bs, "MSG_ID", 3, Reversed, false)
    else if op == 0x9F then ListedCode(bs, "WIN_SUB", 4, Reversed, true)
    else if op == 0xA0 then ListedCode(bs, "PAD", 3, Reversed, false)
    else if op == 0xA1 && 2 <= |bs| && bs[1] == 0x8C then KeyedCode(bs, "WIN_MAIN_1", WINDOW_LAYOUT, true)
    else if op == 0xA1 && 2 <= |bs| && bs[1] == 0x94 then KeyedCode(bs, "WIN_MAIN_1", WINDOW_94_LAYOUT, true)
    else if op == 0xA2 && 2 <= |bs| && bs[1] == 0x94 then KeyedCode(bs, "WIN_MAIN_2", WINDOW_LAYOUT, true)
    else if op == 0xA4 then ListedCode(bs, "WAIT", 3, Reversed, true)
    else if op == 0xA9 then ListedCode(bs, "CLOSE", 6, Reversed, false)
    else if op == 0xBA && PriceFollows(bs) then Ok(Unit(Control(Bare("PRICE_ZAIRE"), false), 7))
    else if op == 0xD0 then ListedCode(bs, "ITEM", 5, Reversed, false)
    else if op == 0xD3 && PriceFollows(bs) then Ok(Unit(Control(Bare("PRICE_ZENNY"), false), 7))
    else Ok(Unit(Control(Raw(op), false), 1))
  }

  /**
   * The bytes each control code takes, opcode included, listed code by code
   * in the order the decoder tests them; a byte that is no control code (or
   * an 0xA1, 0xA2, 0xBA or 0xD3 without the bytes that single it out) takes
   * one byte.
   */
  function OpWidth(bs: seq<Byte>): (w: nat)
    requires bs != []
    ensures 1 <= w <= 12
  {
    var op := bs[0];
    if op == 0x8B then 3                                           // PAUSE
    else if op == 0x8A && 7 <= |bs| && bs[6] == 0xFF then 7        // UNK1
    else if op == 0x8A then 3                                      // UNK2
    else if op == 0x8C then 10                                     // MENU
    else if op == 0x8E then 3                                      // UNK3
    else if op == 0x8F then 5                                      // AUDIO
    else if op == 0x89 then 2                                      // COLOR
    else if op == 0x93 || op == 0x96 || op == 0x99 then 3          // UNK4, SEL, JMP
    else if op == 0x9A || op == 0x9B || op == 0x9C then 3          // UNK5, UNK6, MSG_ID
    else if op == 0x9F then 4                                      // WIN_SUB
    else if op == 0xA0 then 3                                      // PAD
    else if op == 0xA1 && 2 <= |bs| && bs[1] == 0x8C then 11       // WIN_MAIN_1 T=8C
    else if op == 0xA1 && 2 <= |bs| && bs[1] == 0x94 then 12       // WIN_MAIN_1 T=94
    else if op == 0xA2 && 2 <= |bs| && bs[1] == 0x94 then 11       // WIN_MAIN_2
    else if op == 0xA4 then 3                                      // WAIT
    else if op == 0xA9 then 6                                      // CLOSE
    else if op == 0xBA && PriceFollows(bs) then 7                  // PRICE_ZAIRE
    else if op == 0xD0 then 5                                      // ITEM
    else if op == 0xD3 && PriceFollows(bs) then 7                  // PRICE_ZENNY
    else 1
  }

  /**
   * A byte without a glyph is read as a control code of its width, which
   * fails exactly when the block ends before the code does; a byte that is
   * no control code prints as `<HH>` and takes one byte.
   */
  lemma StepWidth(bs: seq<Byte>)
    requires bs != [] && CharTable(bs[0]).None?
    ensures Step(bs).Ok? <==> OpWidth(bs) <= |bs|
    ensures Step(bs).Ok? ==> Step(bs).value.width == OpWidth(bs)
    ensures Step(bs).Err? ==> Step(bs).error == Truncated(bs[0])
    ensures OpWidth(bs) == 1 ==> Step(bs) == Ok(Unit(Control(Raw(bs[0]), false), 1))
  {
    if bs[0] < 0xA0 {
      LowWidth(bs);
    } else {
      HighWidth(bs);
    }
  }

  lemma LowWidth(bs: seq<Byte>)
    requires bs != [] && CharTable(bs[0]).None? && bs[0] < 0xA0
    ensures Step(bs).Ok? <==> OpWidth(bs) <= |bs|
    ensures Step(bs).Ok? ==> Step(bs).value.width == OpWidth(bs)
    ensures Step(bs).Err? ==> Step(bs).error == Truncated(bs[0])
    ensures OpWidth(bs) == 1 ==> Step(bs) == Ok(Unit(Control(Raw(bs[0]), false), 1))
  {
    LayoutSpans();
  }

  lemma HighWidth(bs: seq<Byte>)
    requires bs != [] && CharTable(bs[0]).None? && bs[0] >= 0xA0
    ensures Step(bs).Ok? <==> OpWidth(bs) <= |bs|
    ensures Step(bs).Ok? ==> Step(bs).value.width == OpWidth(bs)
    ensures Step(bs).Err? ==> Step(bs).error == Truncated(bs[0])
    ensures OpWidth(bs) == 1 ==> Step(bs) == Ok(Unit(Control(Raw(bs[0]), false), 1))
  {
    if bs[0] < 0xA3 {
      WindowWidth(bs);
    }
  }

  lemma WindowWidth(bs: seq<Byte>)
    requires bs != [] && CharTable(bs[0]).None? && 0xA0 <= bs[0] < 0xA3
    ensures Step(bs).Ok? <==> OpWidth(bs) <= |bs|
    ensures Step(bs).Ok? ==> Step(bs).value.width == OpWidth(bs)
    ensures Step(bs).Err? ==> Step(bs).error == Truncated(bs[0])
    ensures OpWidth(bs) == 1 ==> Step(bs) == Ok(Unit(Control(Raw(bs[0]), false), 1))
  {
    LayoutSpans();
  }

  /** The bytes each keyed control code takes, opcode included. */
  lemma LayoutSpans()
    ensures Span(MENU_LAYOUT) == 10 && Span(WINDOW_LAYOUT) == 11 && Span(WINDOW_94_LAYOUT) == 12
  {
    assert Total(MENU_LAYOUT) == 9;
    assert Total(WINDOW_LAYOUT) == 10;
    assert Total(WINDOW_94_LAYOUT) == 11;
  }

  /** The text of a whole block, unit after unit; the first failing unit fails the block. */
  function Decoding(bs: seq<Byte>): Result<string>
    decreases |bs|
  {
    if bs == [] then Ok("")
    else
      var u :- Step(bs);
      var rest :- Decoding(bs[u.width..]);
      Ok(PieceText(u.piece) + rest)
  }

  lemma DecodingUnfolds(bs: seq<Byte>)
    requires bs != []
    ensures Step(bs).Err? ==> Decoding(bs) == Err(Step(bs).error)
    ensures Step(bs).Ok? ==>
      Decoding(bs) == Prepended(PieceText(Step(bs).value.piece), Decoding(bs[Step(bs).value.width..]))
  {
  }

  /** One step of the scan keeps `Decoding(bs)` equal to the text so far followed by the rest. */
  lemma ScanStep(bs: seq<Byte>, rest: seq<Byte>, text: string, u: Unit)
    requires rest != [] && Decoding(bs) == Prepended(text, Decoding(rest))
    requires Step(rest) == Ok(u)
    ensures u.width <= |rest|
    ensures Decoding(bs) == Prepended(text + PieceText(u.piece), Decoding(rest[u.width..]))
  {
    DecodingUnfolds(rest);
    PrependedTwice(text, PieceText(u.piece), Decoding(rest[u.width..]));
  }

  /** `do_decode_block`: the scan over the block, appending one unit's text per step. */
  method DecodeBlock(bs: seq<Byte>) returns (r: Result<string>)
    ensures r == Decoding(bs)
  {
    var text := "";
    var i := 0;
    ghost var rest := bs;
    PrependedNothing(Decoding(bs));
    while i < |bs|
      invariant 0 <= i <= |bs| && rest == bs[i..]
      invariant Decoding(bs) == Prepended(text, Decoding(rest))
    {
      var u := Step(bs[i..]);
      if u.Err? {
        DecodingUnfolds(rest);
        return Err(u.error);
      }
      ScanStep(bs, rest, text, u.value);
      text := text + PieceText(u.value.piece);
      i := i + u.value.width;
      rest := rest[u.value.width..];
    }
    assert rest == [] && text + "" == text;
    return Ok(text);
  }
}
