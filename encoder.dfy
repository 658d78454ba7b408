/**
 * Encoding the text form of a block back into dialog bytes
 * (`tag_args` and `do_encode_text_block` in Formats/MSG.py).
 *
 * The scan reads one unit at a time: a character other than '<' is looked
 * up in the inverted font table; '<' opens a tag that runs to the next '>'.
 * A tag is a glyph token, a control code recognised by the start of its
 * name, or else a raw byte in hexadecimal.  Control codes whose text form
 * ends in a line break skip the character after the tag.
 */
module Encoder {
  import opened Bytes
  import opened Wrappers
  import opened Hex
  import opened Font
  import opened Strings

  /** How `tag_args` reads a tag: "S", one run of digits after the first space; "M", the value after every '='. */
  datatype ArgKind = S | M

  /** The bytes a tag encodes to, and whether the scan also skips the line break after it. */
  datatype Encoded = Encoded(bytes: seq<Byte>, skipsNewline: bool)

  /** The bytes one unit of text encodes to, and the number of characters the scan moves on by. */
  datatype Chunk = Chunk(bytes: seq<Byte>, consumed: nat)

  /** `re.findall('.{1,2}', s)`: `s` cut into pieces of two characters, the last one possibly shorter. */
  function Chunks2(s: string): (r: seq<string>)
    ensures |r| == (|s| + 1) / 2
    ensures forall k :: 0 <= k < |r| ==> 1 <= |r[k]| <= 2
    ensures forall k :: 0 <= k < |r| - 1 ==> |r[k]| == 2
    decreases |s|
  {
    if s == [] then []
    else if |s| <= 2 then [s]
    else [s[..2]] + Chunks2(s[2..])
  }

  /** The pieces join back into `s`. */
  lemma {:induction false} Chunks2Concat(s: string)
    ensures Concat(Chunks2(s)) == s
    decreases |s|
  {
    if |s| > 2 {
      var c := Chunks2(s);
      Chunks2Concat(s[2..]);
      assert c[1..] == Chunks2(s[2..]);
      assert s[..2] + s[2..] == s;
    } else if s != [] {
      assert Concat(Chunks2(s)) == s + Concat([]);
    }
  }

  /** Piece `k` of `Chunks2(s)` is the two characters of `s` at `2 * k`, or the one left at the end. */
  lemma Chunks2Pairs(s: string)
    ensures forall k :: 0 <= k < |Chunks2(s)| ==> PairAt(s, k, Chunks2(s)[k])
  {
    forall k | 0 <= k < |Chunks2(s)|
      ensures PairAt(s, k, Chunks2(s)[k])
    {
      ChunkAt(s, k);
    }
  }

  /** `piece` holds the characters of `s` at `2 * k` and `2 * k + 1`, or only the first when `s` ends there. */
  predicate PairAt(s: string, k: nat, piece: string)
  {
    && 2 * k < |s|
    && |piece| == (if 2 * k + 2 <= |s| then 2 else 1)
    && forall j :: 0 <= j < |piece| ==> piece[j] == s[2 * k + j]
  }

  lemma {:induction false} ChunkAt(s: string, k: nat)
    requires k < |Chunks2(s)|
    ensures PairAt(s, k, Chunks2(s)[k])
  {
    if k > 0 {
      Chunks2Index(s, k);
      ChunkAt(s[2..], k - 1);
    }
  }

  lemma Chunks2Index(s: string, k: nat)
    requires 0 < k < |Chunks2(s)|
    ensures 2 < |s| && k - 1 < |Chunks2(s[2..])| && Chunks2(s)[k] == Chunks2(s[2..])[k - 1]
  {
  }

  /** The pieces joined back together. */
  function Concat(pieces: seq<string>): string
  {
    if pieces == [] then [] else pieces[0] + Concat(pieces[1..])
  }

  /** `re.findall('=([^\W]*)', s[start:])`: the run of word characters after every '='. */
  function KeyedValues(s: string, start: nat): (r: seq<string>)
    ensures forall k :: 0 <= k < |r| ==> forall j :: 0 <= j < |r[k]| ==> IsWordChar(r[k][j])
    decreases |s| - start
  {
    var e := Find(s, '=', start);
    if e == -1 then []
    else
      var v := WordRun(s, e + 1);
      [v] + KeyedValues(s, e + 1 + |v|)
  }

  /**
   * `tag_args(full_tag, typ)`.  For "S" the first whitespace character and
   * the word characters after it are found, and that run is cut into pieces
   * of two; a tag without whitespace has no match, and taking the first
   * match fails.  For "M" the values of all '=' fields are returned.
   */
  function TagArgs(tag: string, kind: ArgKind): (r: Result<seq<string>>)
    ensures kind == M ==> r.Ok?
    ensures kind == S ==> (r.Ok? <==> exists k :: 0 <= k < |tag| && IsSpace(tag[k]))
    ensures r.Ok? && kind == S ==> forall k :: 0 <= k < |r.value| ==> 1 <= |r.value[k]| <= 2
  {
    match kind
    case S =>
      var sp := FirstSpace(tag, 0);
      if sp == -1 then Err(MalformedTag(tag)) else Ok(Chunks2(WordRun(tag, sp + 1)))
    case M => Ok(KeyedValues(tag, 0))
  }

  /** `int(arg, 16)` for each argument, in order; an argument that is not hexadecimal fails the tag. */
  function ParseEach(tag: string, args: seq<string>): (r: Result<seq<Byte>>)
    requires forall k :: 0 <= k < |args| ==> |args[k]| <= 2
    ensures r.Ok? <==> forall k :: 0 <= k < |args| ==> ParseHex(args[k]).Some?
    ensures r.Ok? ==> |r.value| == |args| && forall k :: 0 <= k < |args| ==> r.value[k] == ParseHex(args[k]).value
    ensures r.Err? ==> r.error == MalformedTag(tag)
  {
    if args == [] then Ok([])
    else
      match ParseHex(args[0])
      case None => Err(MalformedTag(tag))
      case Some(v) =>
        var rest :- ParseEach(tag, args[1..]);
        Ok([v] + rest)
  }

  /**
   * The bytes one `KEY=value` field contributes: a four-digit value as two
   * bytes, low byte first; a two-digit value as one byte; any other length
   * nothing.
   */
  function FieldBytes(tag: string, arg: string): (r: Result<seq<Byte>>)
    ensures r.Err? <==> (|arg| == 4 || |arg| == 2) && ParseHex(arg).None?
    ensures r.Ok? ==> |r.value| == (if |arg| == 4 then 2 else if |arg| == 2 then 1 else 0)
    ensures r.Ok? && |arg| == 4 ==> LeUint(r.value) == ParseHex(arg).value
    ensures r.Ok? && |arg| == 2 ==> r.value[0] == ParseHex(arg).value
    ensures r.Err? ==> r.error == MalformedTag(tag)
  {
    if |arg| == 4 then
      match ParseHex(arg)
      case None => Err(MalformedTag(tag))
      case Some(v) => Ok(Uint16Bytes(v))
    else if |arg| == 2 then
      match ParseHex(arg)
      case None => Err(MalformedTag(tag))
      case Some(v) => Ok([v])
    else Ok([])
  }

  /** The bytes of all fields, one after the other; the first field that fails fails the tag. */
  function FieldsBytes(tag: string, args: seq<string>): (r: Result<seq<Byte>>)
    ensures r.Ok? <==> forall k :: 0 <= k < |args| ==> FieldBytes(tag, args[k]).Ok?
    ensures r.Err? ==> r.error == MalformedTag(tag)
  {
    if args == [] then Ok([])
    else
      var b :- FieldBytes(tag, args[0]);
      var rest :- FieldsBytes(tag, args[1..]);
      Ok(b + rest)
  }

  /** A single field writes its own bytes. */
  lemma FieldsBytesOne(tag: string, arg: string)
    ensures FieldsBytes(tag, [arg]) == FieldBytes(tag, arg)
  {
    assert [arg][1..] == [];
    if FieldBytes(tag, arg).Ok? {
      assert FieldBytes(tag, arg).value + [] == FieldBytes(tag, arg).value;
    }
  }

  /**
   * The fields of `a + b` write the bytes of the fields of `a` and then
   * those of the fields of `b`, and succeed exactly when both do.
   */
  lemma {:induction false} FieldsBytesAppend(tag: string, a: seq<string>, b: seq<string>)
    ensures FieldsBytes(tag, a + b).Ok? <==> FieldsBytes(tag, a).Ok? && FieldsBytes(tag, b).Ok?
    ensures FieldsBytes(tag, a + b).Ok? ==>
      FieldsBytes(tag, a + b).value == FieldsBytes(tag, a).value + FieldsBytes(tag, b).value
  {
    if a == [] {
      assert a + b == b;
    } else {
      FieldsBytesAppend(tag, a[1..], b);
      TailAppend(a, b);
      if FieldsBytes(tag, a + b).Ok? {
        SeqAssoc(FieldBytes(tag, a[0]).value, FieldsBytes(tag, a[1..]).value, FieldsBytes(tag, b).value);
      }
    }
  }

  /** The positions of the '=' signs of `s` from `start` on, in order. */
  function EqualsSigns(s: string, start: nat): seq<nat>
    decreases |s| - start
  {
    if start >= |s| then []
    else if s[start] == '=' then [start] + EqualsSigns(s, start + 1)
    else EqualsSigns(s, start + 1)
  }

  lemma {:induction false} EqualsSkip(s: string, a: nat, b: nat)
    requires a <= b <= |s| && forall k :: a <= k < b ==> s[k] != '='
    ensures EqualsSigns(s, a) == EqualsSigns(s, b)
    decreases b - a
  {
    if a < b {
      EqualsSkip(s, a + 1, b);
    }
  }

  /** The first '=' found from `start` on heads the positions of the '=' signs. */
  lemma EqualsFind(s: string, start: nat)
    ensures var e := Find(s, '=', start);
      EqualsSigns(s, start) == if e == -1 then [] else [e] + EqualsSigns(s, e + 1)
  {
    var e := Find(s, '=', start);
    if e == -1 {
      if start < |s| {
        EqualsSkip(s, start, |s|);
      }
    } else {
      EqualsSkip(s, start, e);
    }
  }

  /** A run of word characters holds no '='. */
  lemma {:induction false} EqualsSkipWord(s: string, i: nat)
    ensures EqualsSigns(s, i) == EqualsSigns(s, i + |WordRun(s, i)|)
    decreases |s| - i
  {
    if i < |s| && IsWordChar(s[i]) {
      EqualsSkipWord(s, i + 1);
    }
  }

  /** The run of word characters after each of the positions `ps`. */
  function ValuesAfter(s: string, ps: seq<nat>): (r: seq<string>)
    ensures |r| == |ps|
  {
    if ps == [] then [] else [WordRun(s, ps[0] + 1)] + ValuesAfter(s, ps[1..])
  }

  /**
   * The "M" arguments: one value for every '=' of `s` from `start` on, in
   * order, each the run of word characters right after its '='.
   */
  lemma {:induction false} KeyedValuesAfterEquals(s: string, start: nat)
    ensures KeyedValues(s, start) == ValuesAfter(s, EqualsSigns(s, start))
    decreases |s| - start
  {
    EqualsFind(s, start);
    var e := Find(s, '=', start);
    if e != -1 {
      var next := KeyedStep(s, start, e);
      KeyedValuesAfterEquals(s, next);
      ValuesAfterCons(s, e, EqualsSigns(s, next));
    }
  }

  /** One field: the '=' at `e` gives its value and moves both lists past it. */
  lemma KeyedStep(s: string, start: nat, e: nat) returns (next: nat)
    requires e == Find(s, '=', start)
    ensures start < next <= |s|
    ensures KeyedValues(s, start) == [WordRun(s, e + 1)] + KeyedValues(s, next)
    ensures EqualsSigns(s, start) == [e] + EqualsSigns(s, next)
  {
    next := KeyedUnfold(s, start, e);
    EqualsUnfold(s, start, e);
  }

  lemma KeyedUnfold(s: string, start: nat, e: nat) returns (next: nat)
    requires e == Find(s, '=', start)
    ensures next == e + 1 + |WordRun(s, e + 1)|
    ensures start < next <= |s|
    ensures KeyedValues(s, start) == [WordRun(s, e + 1)] + KeyedValues(s, next)
  {
    next := e + 1 + |WordRun(s, e + 1)|;
  }

  lemma EqualsUnfold(s: string, start: nat, e: nat)
    requires e == Find(s, '=', start)
    ensures EqualsSigns(s, start) == [e] + EqualsSigns(s, e + 1 + |WordRun(s, e + 1)|)
  {
    EqualsFind(s, start);
    EqualsSkipWord(s, e + 1);
  }

  lemma ValuesAfterCons(s: string, p: nat, ps: seq<nat>)
    ensures ValuesAfter(s, [p] + ps) == [WordRun(s, p + 1)] + ValuesAfter(s, ps)
  {
    assert ([p] + ps)[0] == p && ([p] + ps)[1..] == ps;
  }

  /** The "S" arguments are the run of word characters after the first whitespace, cut into pieces. */
  lemma SpacedArgs(tag: string)
    requires TagArgs(tag, S).Ok?
    ensures FirstSpace(tag, 0) != -1
    ensures var run, args := WordRun(tag, FirstSpace(tag, 0) + 1), TagArgs(tag, S).value;
      && Concat(args) == run
      && |args| == (|run| + 1) / 2
      && forall k :: 0 <= k < |args| ==> PairAt(run, k, args[k])
  {
    Chunks2Concat(WordRun(tag, FirstSpace(tag, 0) + 1));
    Chunks2Pairs(WordRun(tag, FirstSpace(tag, 0) + 1));
  }

  /** What a control code's rule reads from the tag. */
  datatype Action =
    | Spaced(opcode: Byte, order: Order)   // `tag_args(tag, "S")`: each piece one byte, in the order given
    | Keyed(opcode: Byte)                  // `tag_args(tag, "M")`: each field one or two bytes
    | Color                                // the first piece of `tag_args(tag, "S")` only
    | Price(opcode: Byte)                  // no arguments: the code and six spaces (0x4F)

  /** A branch of the encoder: taken when the tag starts with `prefix` and ends with `suffix`. */
  datatype Rule = Rule(prefix: string, suffix: string, action: Action, skipsNewline: bool)

  /** The control codes in the order the encoder tries them. */
  const RULES: seq<Rule> := [
    Rule("PAUSE", "", Spaced(0x8B, Reversed), true),
    Rule("UNK1", "FF", Spaced(0x8A, InOrder), true),
    Rule("UNK2", "", Spaced(0x8A, InOrder), false),
    Rule("MENU", "", Keyed(0x8C), true),
    Rule("UNK3", "", Spaced(0x8E, InOrder), false),
    Rule("AUDIO", "", Spaced(0x8F, Reversed), true),
    Rule("COLOR", "", Color, false),
    Rule("UNK4", "", Spaced(0x93, InOrder), false),
    Rule("SEL", "", Spaced(0x96, InOrder), false),
    Rule("JMP", "", Spaced(0x99, InOrder), false),
    Rule("UNK5", "", Spaced(0x9A, Reversed), false),
    Rule("UNK6", "", Spaced(0x9B, Reversed), false),
    Rule("MSG_ID", "", Spaced(0x9C, Reversed), false),
    Rule("WIN_SUB", "", Spaced(0x9F, Reversed), true),
    Rule("PAD", "", Spaced(0xA0, Reversed), false),
    Rule("WIN_MAIN_1 T=8C", "", Keyed(0xA1), true),
    Rule("WIN_MAIN_1 T=94", "", Keyed(0xA1), true),
    Rule("WIN_MAIN_2", "", Keyed(0xA2), true),
    Rule("WAIT", "", Spaced(0xA4, Reversed), true),
    Rule("CLOSE", "", Spaced(0xA9, Reversed), false),
    Rule("PRICE_ZAIRE", "", Price(0xBA), false),
    Rule("ITEM", "", Spaced(0xD0, Reversed), false),
    Rule("PRICE_ZENNY", "", Price(0xD3), false)
  ]

  predicate Matches(tag: string, rule: Rule)
  {
    StartsWith(tag, rule.prefix) && EndsWith(tag, rule.suffix)
  }

  /** The bytes a control code's branch writes for the tag. */
  function Apply(tag: string, action: Action): (r: Result<seq<Byte>>)
    ensures r.Ok? ==> 1 <= |r.value|
    ensures r.Ok? && !action.Color? ==> r.value[0] == action.opcode
    ensures r.Ok? && action.Color? ==> |r.value| == 2 && r.value[0] == 0x89
    ensures r.Ok? && action.Price? ==> r.value == [action.opcode, 0x4F, 0x4F, 0x4F, 0x4F, 0x4F, 0x4F]
  {
    match action
    case Spaced(opcode, order) =>
      var args :- TagArgs(tag, S);
      var values :- ParseEach(tag, Arrange(args, order));
      Ok([opcode] + values)
    case Keyed(opcode) =>
      var args :- TagArgs(tag, M);
      var values :- FieldsBytes(tag, args);
      Ok([opcode] + values)
    case Color =>
      var args :- TagArgs(tag, S);
      if args == [] then Err(MalformedTag(tag))
      else
        var values :- ParseEach(tag, args[..1]);
        Ok([0x89] + values)
    case Price(opcode) => Ok([opcode, 0x4F, 0x4F, 0x4F, 0x4F, 0x4F, 0x4F])
  }

  /**
   * On any tag, a listed control code's branch writes its opcode and then
   * the hexadecimal values of the "S" argument pieces, taken in the rule's
   * order; it fails exactly when a piece is not hexadecimal.
   */
  lemma SpacedBytes(tag: string, op: Byte, order: Order)
    requires TagArgs(tag, S).Ok?
    ensures Apply(tag, Spaced(op, order)).Ok? <==> ParseEach(tag, TagArgs(tag, S).value).Ok?
    ensures Apply(tag, Spaced(op, order)).Ok? ==>
      Apply(tag, Spaced(op, order)).value == [op] + Arrange(ParseEach(tag, TagArgs(tag, S).value).value, order)
  {
    ParseArranged(tag, TagArgs(tag, S).value, order);
  }

  /** Parsing the pieces in another order gives the same values in that order. */
  lemma ParseArranged(tag: string, args: seq<string>, order: Order)
    requires forall k :: 0 <= k < |args| ==> |args[k]| <= 2
    ensures forall k :: 0 <= k < |Arrange(args, order)| ==> |Arrange(args, order)[k]| <= 2
    ensures ParseEach(tag, Arrange(args, order)).Ok? <==> ParseEach(tag, args).Ok?
    ensures ParseEach(tag, args).Ok? ==>
      ParseEach(tag, Arrange(args, order)).value == Arrange(ParseEach(tag, args).value, order)
  {
    if order == Reversed {
      ParseReversed(tag, args);
    }
  }

  lemma ParseReversed(tag: string, args: seq<string>)
    requires forall k :: 0 <= k < |args| ==> |args[k]| <= 2
    ensures forall k :: 0 <= k < |Reverse(args)| ==> |Reverse(args)[k]| <= 2
    ensures ParseEach(tag, Reverse(args)).Ok? <==> ParseEach(tag, args).Ok?
    ensures ParseEach(tag, args).Ok? ==>
      ParseEach(tag, Reverse(args)).value == Reverse(ParseEach(tag, args).value)
  {
    var rs := Reverse(args);
    var n := |args|;
    assert forall k :: 0 <= k < n ==> rs[k] == args[n - 1 - k];
    if ParseEach(tag, args).Ok? {
      assert forall k :: 0 <= k < n ==> ParseHex(rs[k]).Some?;
    } else {
      var k :| 0 <= k < n && ParseHex(args[k]).None?;
      assert rs[n - 1 - k] == args[k];
    }
  }

  /** The fallback `int(tag, 16)`:a tag that is neither a token nor a control code is one byte in hexadecimal. */
  function RawCode(tag: string): (r: Result<Encoded>)
    ensures r.Ok? <==> ParseHex(tag).Some? && ParseHex(tag).value < 0x100
    ensures r.Ok? ==> r.value == Encoded([ParseHex(tag).value], false)
  {
    match ParseHex(tag)
    case None => Err(MalformedTag(tag))
    case Some(v) => if v < 0x100 then Ok(Encoded([v], false)) else Err(ByteOutOfRange(v))
  }

  /** The first rule from the `k`-th on that the tag matches; a tag no rule matches is a raw byte. */
  function Dispatch(tag: string, k: nat): (r: Result<Encoded>)
    ensures r.Ok? ==> 1 <= |r.value.bytes|
    decreases |RULES| - k
  {
    if k >= |RULES| then RawCode(tag)
    else if Matches(tag, RULES[k]) then
      var bytes :- Apply(tag, RULES[k].action);
      Ok(Encoded(bytes, RULES[k].skipsNewline))
    else Dispatch(tag, k + 1)
  }

  /**
   * The text between '<' and '>' as bytes: a token of the font table first,
   * then the control codes of `RULES`, in order; anything else is a raw byte.
   */
  function EncodeTag(tag: string): (r: Result<Encoded>)
    ensures r.Ok? ==> 1 <= |r.value.bytes|
  {
    match Inverse("<" + tag + ">")
    case Some(b) => Ok(Encoded([b], false))
    case None => Dispatch(tag, 0)
  }

  /**
   * The unit at the start of `s`.  A tag runs from '<' to the next '>'; with
   * no '>' left, it runs to the last character but one (Python's `s[1:-1]`).
   */
  function EncodeUnit(s: string): (r: Result<Chunk>)
    requires s != []
    ensures r.Ok? ==> 1 <= r.value.consumed && 1 <= |r.value.bytes|
    ensures s[0] != '<' ==> (r.Ok? <==> Inverse([s[0]]).Some?)
  {
    if s[0] != '<' then
      match Inverse([s[0]])
      case None => Err(UnknownGlyph(s[0]))
      case Some(b) => Ok(Chunk([b], 1))
    else
      var tag := PySlice(s, 1, Find(s, '>', 1));
      var e :- EncodeTag(tag);
      Ok(Chunk(e.bytes, Width(tag, e)))
  }

  /** The characters a tag takes up: the brackets, and the line break after it when the code has one. */
  function Width(tag: string, e: Encoded): nat
  {
    |tag| + 2 + if e.skipsNewline then 1 else 0
  }

  /** What remains of `s` after the first `n` characters (nothing when `n` runs past the end). */
  function Rest(s: string, n: nat): (r: string)
    ensures |r| == if n <= |s| then |s| - n else 0
  {
    if n <= |s| then s[n..] else []
  }

  /** The bytes of a whole block, unit after unit; the first failing unit fails the block. */
  function Encoding(s: string): Result<seq<Byte>>
    decreases |s|
  {
    if s == [] then Ok([])
    else
      var c :- EncodeUnit(s);
      var rest :- Encoding(Rest(s, c.consumed));
      Ok(c.bytes + rest)
  }

  lemma EncodingUnfolds(s: string)
    requires s != []
    ensures EncodeUnit(s).Err? ==> Encoding(s) == Err(EncodeUnit(s).error)
    ensures EncodeUnit(s).Ok? ==>
      Encoding(s) == Prepended<Byte>(EncodeUnit(s).value.bytes, Encoding(Rest(s, EncodeUnit(s).value.consumed)))
  {
  }

  /** Searching the whole text from `i + 1` finds the tag that searching its suffix from 1 finds. */
  lemma TagInSuffix(text: string, i: nat)
    requires i < |text|
    ensures PySlice(text[i..], 1, Find(text[i..], '>', 1)) == PySlice(text, i + 1, Find(text, '>', i + 1))
  {
    var s := text[i..];
    FindInSuffix(text, '>', i, 1);
    var f := Find(text, '>', i + 1);
    if f != -1 {
      assert s[1..f - i] == text[i + 1..f];
    } else if i + 1 < |text| - 1 {
      assert s[1..|s| - 1] == text[i + 1..|text| - 1];
    }
  }

  /** What `EncodeUnit` does with a tag, in terms of `EncodeTag`. */
  lemma UnitOfTag(s: string, tag: string)
    requires s != [] && s[0] == '<' && tag == PySlice(s, 1, Find(s, '>', 1))
    ensures EncodeTag(tag).Err? ==> EncodeUnit(s) == Err(EncodeTag(tag).error)
    ensures EncodeTag(tag).Ok? ==> EncodeUnit(s) == Ok(Chunk(EncodeTag(tag).value.bytes, Width(tag, EncodeTag(tag).value)))
  {
  }

  /** The unit a scan step over a character other than '<' encodes. */
  lemma GlyphUnit(text: string, bi: nat)
    requires bi < |text| && text[bi] != '<'
    ensures Inverse([text[bi]]).None? ==> EncodeUnit(text[bi..]) == Err(UnknownGlyph(text[bi]))
    ensures Inverse([text[bi]]).Some? ==> EncodeUnit(text[bi..]) == Ok(Chunk([Inverse([text[bi]]).value], 1))
  {
    assert text[bi..][0] == text[bi];
  }

  /** The unit a scan step over a tag encodes, found as the source finds the tag: from `bi + 1` to the next '>' of the whole text. */
  lemma TagUnit(text: string, bi: nat, tag: string)
    requires bi < |text| && text[bi] == '<'
    requires tag == PySlice(text, bi + 1, Find(text, '>', bi + 1))
    ensures EncodeTag(tag).Err? ==> EncodeUnit(text[bi..]) == Err(EncodeTag(tag).error)
    ensures EncodeTag(tag).Ok? ==> EncodeUnit(text[bi..]) == Ok(Chunk(EncodeTag(tag).value.bytes, Width(tag, EncodeTag(tag).value)))
  {
    TagInSuffix(text, bi);
    UnitOfTag(text[bi..], tag);
  }

  /** A scan step over a unit that does not encode fails the whole text. */
  lemma ScanFails(text: string, rest: string, output: seq<Byte>, error: Error)
    requires rest != [] && Encoding(text) == Prepended<Byte>(output, Encoding(rest))
    requires EncodeUnit(rest) == Err(error)
    ensures Encoding(text) == Err(error)
  {
    EncodingUnfolds(rest);
  }

  /** A scan step over a unit that encodes: its bytes join the output, and the scan goes on after it. */
  lemma ScanUnit(text: string, rest: string, output: seq<Byte>, c: Chunk, grown: seq<Byte>)
    requires rest != [] && Encoding(text) == Prepended<Byte>(output, Encoding(rest))
    requires EncodeUnit(rest) == Ok(c) && grown == output + c.bytes
    ensures Encoding(text) == Prepended<Byte>(grown, Encoding(Rest(rest, c.consumed)))
  {
    EncodingUnfolds(rest);
    PrependedTwice<Byte>(output, c.bytes, Encoding(Rest(rest, c.consumed)));
  }

  lemma RestOfRest(s: string, m: nat, n: nat)
    requires m <= |s|
    ensures Rest(Rest(s, m), n) == Rest(s, m + n)
  {
    if m + n <= |s| {
      assert s[m..][n..] == s[m + n..];
    }
  }

  /**
   * The body of the scan in `do_encode_text_block`: the bytes of the unit at
   * `bi` and the number of characters to move on by.
   */
  method EncodeStep(text: string, bi: nat, ghost rest: string) returns (r: Result<Chunk>)
    requires bi < |text| && rest == Rest(text, bi)
    ensures r == EncodeUnit(rest)
  {
    assert rest == text[bi..];
    var c := text[bi];
    if c != '<' {
      GlyphUnit(text, bi);
      var b := Inverse([c]);
      if b.None? {
        return Err(UnknownGlyph(c));
      }
      return Ok(Chunk([b.value], 1));
    }
    var tagEnd := Find(text, '>', bi + 1);
    var tag := PySlice(text, bi + 1, tagEnd);
    TagUnit(text, bi, tag);
    var e := EncodeTag(tag);
    if e.Err? {
      return Err(e.error);
    }
    return Ok(Chunk(e.value.bytes, Width(tag, e.value)));
  }

  /** `do_encode_text_block`: the scan over the text, appending each unit's bytes. */
  method EncodeTextBlock(text: string) returns (r: Result<seq<Byte>>)
    ensures r == Encoding(text)
  {
    var output: seq<Byte> := [];
    var bi: nat := 0;
    ghost var rest := text;
    PrependedNothing<Byte>(Encoding(text));
    while bi < |text|
      invariant rest == Rest(text, bi)
      invariant Encoding(text) == Prepended<Byte>(output, Encoding(rest))
    {
      var step := EncodeStep(text, bi, rest);
      match step {
        case Err(e) =>
          ScanFails(text, rest, output, e);
          return Err(e);
        case Ok(c) =>
          ScanUnit(text, rest, output, c, output + c.bytes);
          RestOfRest(text, bi, c.consumed);
          output := output + c.bytes;
          bi := bi + c.consumed;
          rest := Rest(rest, c.consumed);
      }
    }
    assert rest == [] && output + [] == output;
    return Ok(output);
  }
}
