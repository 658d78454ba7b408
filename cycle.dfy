/**
 * Extraction followed by insertion.  The text file `do_extract_msg` writes
 * is cut by `do_insert_msg` into exactly one block per section, and each of
 * them encodes back to the bytes of the block it was decoded from.  This
 * rests on two facts about the text form: decoded text never holds '[', so
 * only labels open blocks, and a label holds no bracket between its own '['
 * and ']'.
 */
module Cycle {
  import opened Bytes
  import opened Wrappers
  import opened Strings
  import opened Hex
  import opened Font
  import opened Decoder
  import opened Entry
  import RoundTrip
  import Encoder
  import Insert
  import Extract

  /** No glyph that has a byte holds '['. */
  lemma GlyphUnopened(g: Glyph)
    requires GlyphCode(g).Some?
    ensures '[' !in Text(g)
  {
    match g
    case Char(c) => CharUnopened(c);
    case Tok(t) => TokenUnopened(t);
  }

  /** '[' is not among the characters that have a byte. */
  lemma CharUnopened(c: char)
    requires CharCode(c).Some?
    ensures '[' !in Text(Char(c))
  {
    assert CharCode('[').None?;
  }

  lemma TokenUnopened(t: Token)
    ensures '[' !in Text(Tok(t))
  {
    var name := TokenName(t);
    assert forall k :: 0 <= k < |name| ==> 'A' <= name[k] <= 'Z' || '.' <= name[k] <= '2' by {
      match t
      case LCorner => case Dot => case Zaire => case Yen => case RCorner => case Circle =>
      case Triangle => case Cross => case Square => case L1 => case L2 => case R1 =>
      case R2 => case Ellipsis => case Hand => case Alpha => case Omega =>
    }
    assert Text(Tok(t)) == "<" + name + ">";
  }

  /** No name or key of a plain tag, and no digit it prints, is '['. */
  lemma TagUnopened(t: Tag)
    requires RoundTrip.PlainTag(t)
    ensures '[' !in TagText(t)
  {
    match t
    case Listed(name, xs) =>
      RoundTrip.HexRunIsWord(xs);
      assert '[' !in name && '[' !in HexRun(xs);
    case Keyed(name, fs) =>
      FieldsUnopened(fs);
    case Bare(name) =>
      assert '[' !in name;
    case Raw(b) =>
      var h := Hex2(b);
      assert h[0] != '[' && h[1] != '[';
  }

  lemma {:induction false} FieldsUnopened(fs: seq<Field>)
    requires forall i :: 0 <= i < |fs| ==> RoundTrip.Plain(fs[i].key)
    ensures '[' !in FieldsText(fs)
    decreases |fs|
  {
    if fs != [] {
      RoundTrip.HexRunIsWord(fs[0].value);
      assert '[' !in HexRun(fs[0].value);
      FieldsUnopened(fs[1..]);
    }
  }

  /** Whatever the decoder prints for one unit holds no '['. */
  lemma PieceUnopened(bs: seq<Byte>)
    requires bs != [] && Step(bs).Ok?
    ensures '[' !in PieceText(Step(bs).value.piece)
  {
    if CharTable(bs[0]).Some? {
      CodedBackAll(bs[0]);
      GlyphUnopened(CharTable(bs[0]).value);
    } else {
      RoundTrip.StepPlain(bs);
      TagUnopened(Step(bs).value.piece.tag);
    }
  }

  /** Decoded text never holds '['. */
  lemma {:induction false} DecodedUnopened(bs: seq<Byte>)
    requires Decoding(bs).Ok?
    ensures '[' !in Decoding(bs).value
    decreases |bs|
  {
    if bs != [] {
      DecodingUnfolds(bs);
      var u := Step(bs).value;
      DecodedUnopened(bs[u.width..]);
      PieceUnopened(bs);
    }
  }

  /** A block label: '[' first, "]\n" last, and no bracket in between. */
  ghost predicate LabelShaped(l: string)
  {
    && 3 <= |l| && l[0] == '[' && l[|l| - 2] == ']' && l[|l| - 1] == '\n'
    && forall k :: 0 < k < |l| - 2 ==> l[k] != '[' && l[k] != ']'
  }

  ghost predicate Bracketless(s: string)
  {
    forall k :: 0 <= k < |s| ==> s[k] != '[' && s[k] != ']'
  }

  lemma Joined(a: string, b: string)
    requires Bracketless(a) && Bracketless(b)
    ensures Bracketless(a + b)
  {
  }

  /** What a label holds between its brackets. */
  function LabelBody(n: nat, start: nat, end: nat): string
  {
    "Block " + Decimal(n) + ", String: " + HexPad(start, 4) + "-" + HexPad(end, 4)
  }

  /** Every label the extraction writes is shaped as a label. */
  lemma LabelsShaped(n: nat, start: nat, end: nat)
    ensures LabelShaped(Extract.Label(n, start, end))
  {
    BodyBracketless(n, start, end);
    assert Extract.Label(n, start, end) == "[" + LabelBody(n, start, end) + "]\n";
    Framed(LabelBody(n, start, end));
  }

  lemma BodyBracketless(n: nat, start: nat, end: nat)
    ensures Bracketless(LabelBody(n, start, end))
  {
    var d := Decimal(n);
    var s := HexPad(start, 4);
    var e := HexPad(end, 4);
    DecimalDigits(n);
    HexPadDigits(start, 4);
    HexPadDigits(end, 4);
    Digits(d);
    Digits(s);
    Digits(e);
    LabelWords();
    Joined("Block ", d);
    Joined("Block " + d, ", String: ");
    Joined("Block " + d + ", String: ", s);
    Joined("Block " + d + ", String: " + s, "-");
    Joined("Block " + d + ", String: " + s + "-", e);
  }

  lemma LabelWords()
    ensures Bracketless("Block ") && Bracketless(", String: ") && Bracketless("-")
  {
  }

  lemma Digits(s: string)
    requires forall k :: 0 <= k < |s| ==> '0' <= s[k] <= '9' || 'A' <= s[k] <= 'F'
    ensures Bracketless(s)
  {
  }

  lemma Framed(m: string)
    requires Bracketless(m)
    ensures LabelShaped("[" + m + "]\n")
  {
    var l := "[" + m + "]\n";
    assert forall k :: 0 < k < |l| - 2 ==> l[k] == m[k - 1];
  }

  /** A stretch without '[' adds no blocks. */
  lemma {:induction false} BlocksSkip(text: string, a: nat, b: nat)
    requires a <= b <= |text| && forall k :: a <= k < b ==> text[k] != '['
    ensures Insert.Blocks(text, a) == Insert.Blocks(text, b)
    decreases b - a
  {
    if a < b {
      BlocksSkip(text, a + 1, b);
    }
  }

  /**
   * A section at `i` — a label, a text without '[', and a blank line —
   * followed by the end of the text or another '[' is cut into one block,
   * the section's text.
   */
  lemma SectionSplit(text: string, i: nat, l: string, d: string, f: nat)
    requires LabelShaped(l) && '[' !in d && f == i + |l| + |d| + 2
    requires f <= |text| && text[i..f] == l + d + "\n\n"
    requires f == |text| || text[f] == '['
    ensures Insert.Blocks(text, i) == [d] + Insert.Blocks(text, f)
  {
    var j := i + |l|;
    SectionChars(text, i, l, d);
    LabelEnd(text, i, j - 2);
    NextLabel(text, i, f);
    BlockTextAt(text, i, j - 2, f);
    BlocksSkip(text, i + 1, f);
  }

  /** The characters of a section at `i`. */
  lemma SectionChars(text: string, i: nat, l: string, d: string)
    requires LabelShaped(l) && '[' !in d
    requires i + |l| + |d| + 2 <= |text| && text[i..i + |l| + |d| + 2] == l + d + "\n\n"
    ensures text[i] == '[' && text[i + |l| - 2] == ']'
    ensures forall x :: i < x < i + |l| - 2 ==> text[x] != ']'
    ensures forall x :: i < x < i + |l| + |d| + 2 ==> text[x] != '['
    ensures text[i + |l|..i + |l| + |d|] == d
  {
    var seg := l + d + "\n\n";
    var j := i + |l|;
    var e := j + |d|;
    var f := e + 2;
    forall k | 0 <= k < |seg|
      ensures text[i + k] == seg[k]
    {
      assert text[i..f][k] == text[i + k];
    }
    assert seg[0] == l[0] && seg[|l| - 2] == l[|l| - 2];
    forall x | i < x < f
      ensures text[x] != '['
      ensures x < j - 2 ==> text[x] != ']'
    {
      if x < j {
        assert seg[x - i] == l[x - i];
      } else if x < e {
        assert seg[x - i] == d[x - j];
        assert d[x - j] in d;
      } else {
        assert seg[x - i] == '\n';
      }
    }
    forall k | 0 <= k < |d|
      ensures text[j..e][k] == d[k]
    {
      assert seg[|l| + k] == d[k];
    }
  }

  /** The text of the block at `i`: after the label's ']' and its newline, up to the blank line before `f`. */
  lemma BlockTextAt(text: string, i: nat, c: nat, f: nat)
    requires i < c && c + 4 <= f <= |text|
    requires Find(text, ']', i + 1) == c
    requires Find(text, '[', i + 1) == if f == |text| then -1 else f
    ensures Insert.BlockText(text, i) == text[c + 2..f - 2]
  {
  }

  /** The label's ']' is the first after its '['. */
  lemma LabelEnd(text: string, i: nat, c: nat)
    requires i < c < |text| && text[c] == ']'
    requires forall x :: i < x < c ==> text[x] != ']'
    ensures Find(text, ']', i + 1) == c
  {
  }

  /** The next '[' after a section is the one that follows it, if any. */
  lemma NextLabel(text: string, i: nat, f: nat)
    requires i < f <= |text| && (f == |text| || text[f] == '[')
    requires forall x :: i < x < f ==> text[x] != '['
    ensures Find(text, '[', i + 1) == if f == |text| then -1 else f
  {
  }

  /** A block that encodes opens the encoded blocks. */
  lemma EncodeAllFirst(d: string, rest: seq<string>, bytes: seq<Byte>)
    requires Encoder.Encoding(d) == Ok(bytes)
    ensures Insert.EncodeAll([d] + rest) == Prepended([bytes], Insert.EncodeAll(rest))
  {
    assert ([d] + rest)[1..] == rest;
  }

  /** Blocks that decode are encoded back to the same bytes, block by block. */
  lemma {:induction false} ReencodedAll(spans: seq<seq<Byte>>)
    requires Extract.DecodeAll(spans).Ok?
    ensures Insert.EncodeAll(Extract.DecodeAll(spans).value) == Ok(spans)
  {
    if spans != [] {
      var d := Decoding(spans[0]).value;
      var rest := Extract.DecodeAll(spans[1..]).value;
      assert Extract.DecodeAll(spans).value == [d] + rest;
      ReencodedAll(spans[1..]);
      RoundTrip.EncodeDecode(spans[0]);
      EncodeAllFirst(d, rest, spans[0]);
      assert [spans[0]] + spans[1..] == spans;
    }
  }

  /**
   * The sections written from the pointer at `offset` on, found at `i` in
   * some text, are cut into the decoded blocks, one block per section.
   */
  lemma {:induction false} SectionsSplit(entry: seq<Byte>, offset: nat, n: nat, text: string, i: nat)
    requires Extract.SectionsFrom(entry, offset, n).Ok?
    requires i <= |text| && text[i..] == Extract.SectionsFrom(entry, offset, n).value
    ensures Extract.DecodeAll(Extract.SpansFrom(entry, offset)).Ok?
    ensures Insert.Blocks(text, i) == Extract.DecodeAll(Extract.SpansFrom(entry, offset)).value
    decreases TableSize(entry) - offset
  {
    if offset < TableSize(entry) {
      var f := SectionCut(entry, offset, n, text, i);
      SectionsSplit(entry, offset + 2, n + 1, text, f);
      Extract.SpansUnfold(entry, offset);
    } else {
      Extract.SpansUnfold(entry, offset);
    }
  }

  /** The first section of the text at `i` is cut into one block, the decoded text of the first span. */
  lemma SectionCut(entry: seq<Byte>, offset: nat, n: nat, text: string, i: nat) returns (f: nat)
    requires offset < TableSize(entry) && Extract.SectionsFrom(entry, offset, n).Ok?
    requires i <= |text| && text[i..] == Extract.SectionsFrom(entry, offset, n).value
    ensures Decoding(Extract.BlockBytes(entry, offset)).Ok?
    ensures Extract.SectionsFrom(entry, offset + 2, n + 1).Ok?
    ensures f <= |text| && text[f..] == Extract.SectionsFrom(entry, offset + 2, n + 1).value
    ensures Insert.Blocks(text, i) == [Decoding(Extract.BlockBytes(entry, offset)).value] + Insert.Blocks(text, f)
  {
    var bytes := Extract.BlockBytes(entry, offset);
    var l := Extract.Label(n, Extract.BlockStart(entry, offset), Extract.BlockEnd(entry, offset));
    Extract.SectionsUnfold(entry, offset, n);
    var d := Decoding(bytes).value;
    var rest := Extract.SectionsFrom(entry, offset + 2, n + 1).value;
    LabelsShaped(n, Extract.BlockStart(entry, offset), Extract.BlockEnd(entry, offset));
    DecodedUnopened(bytes);
    if rest != [] {
      Extract.SectionsOpen(entry, offset + 2, n + 1);
    }
    f := CutAt(text, i, l, d, rest);
  }

  /** A label, a text without '[', a blank line, and then the end or another label: one block. */
  lemma CutAt(text: string, i: nat, l: string, d: string, rest: string) returns (f: nat)
    requires LabelShaped(l) && '[' !in d && (rest != [] ==> rest[0] == '[')
    requires i <= |text| && text[i..] == l + d + "\n\n" + rest
    ensures f <= |text| && text[f..] == rest
    ensures Insert.Blocks(text, i) == [d] + Insert.Blocks(text, f)
  {
    SectionAt(text, i, l, d, rest);
    f := i + |l| + |d| + 2;
    SectionSplit(text, i, l, d, f);
  }

  /** A section followed by the rest of the text, found at `i`. */
  lemma SectionAt(text: string, i: nat, l: string, d: string, rest: string)
    requires i <= |text| && text[i..] == l + d + "\n\n" + rest
    ensures i + |l| + |d| + 2 <= |text|
    ensures text[i..i + |l| + |d| + 2] == l + d + "\n\n"
    ensures text[i + |l| + |d| + 2..] == rest
    ensures rest != [] ==> text[i + |l| + |d| + 2] == rest[0]
  {
    var w := |l| + |d| + 2;
    assert text[i..][..w] == text[i..i + w];
    assert text[i..][w..] == text[i + w..];
  }

  /**
   * Extraction then insertion: `do_insert_msg` cuts the text file that
   * `do_extract_msg` writes into one block per section, and re-encodes them
   * to the bytes of the blocks they were extracted from, in table order.
   */
  lemma ExtractThenInsert(entry: seq<Byte>)
    requires Extract.Extraction(entry).Ok?
    ensures Extract.DecodeAll(Extract.SpansFrom(entry, 0)).Ok?
    ensures Insert.Blocks(Extract.Extraction(entry).value, 0) == Extract.DecodeAll(Extract.SpansFrom(entry, 0)).value
    ensures Insert.EncodeAll(Insert.Blocks(Extract.Extraction(entry).value, 0)) == Ok(Extract.SpansFrom(entry, 0))
  {
    var text := Extract.Extraction(entry).value;
    assert text[0..] == text;
    SectionsSplit(entry, 0, 1, text, 0);
    ReencodedAll(Extract.SpansFrom(entry, 0));
  }
}
