/**
 * Decoding a block and encoding its text form again gives back the block:
 * for every block that `do_decode_block` turns into text,
 * `do_encode_text_block` turns that text into the same bytes.
 */
module RoundTrip {
  import opened Bytes
  import opened Wrappers
  import opened Hex
  import opened Font
  import opened Strings
  import opened Decoder
  import opened Encoder

  /** The two-digit fields of `xs`, one string per byte. */
  function Hex2s(xs: seq<Byte>): (r: seq<string>)
    ensures |r| == |xs| && forall k :: 0 <= k < |r| ==> |r[k]| == 2
  {
    if xs == [] then [] else [Hex2(xs[0])] + Hex2s(xs[1..])
  }

  predicate AllWord(s: string)
  {
    forall k :: 0 <= k < |s| ==> IsWordChar(s[k])
  }

  lemma {:induction false} HexRunIsWord(xs: seq<Byte>)
    ensures AllWord(HexRun(xs))
  {
    if xs != [] {
      HexRunIsWord(xs[1..]);
      var h := Hex2(xs[0]);
      assert HexRun(xs) == h + HexRun(xs[1..]);
      assert IsWordChar(h[0]) && IsWordChar(h[1]);
    }
  }

  lemma {:induction false} ChunksOfHexRun(xs: seq<Byte>)
    ensures Chunks2(HexRun(xs)) == Hex2s(xs)
  {
    if xs != [] {
      var s := HexRun(xs);
      ChunksOfHexRun(xs[1..]);
      assert s[..2] == Hex2(xs[0]) && s[2..] == HexRun(xs[1..]);
      if |xs| == 1 {
        assert s == s[..2];
      }
    }
  }

  /** The word run at `start` is `w` when `w` stands there and is not followed by a word character. */
  lemma {:induction false} WordRunIs(s: string, start: nat, w: string)
    requires start + |w| <= |s| && s[start..start + |w|] == w && AllWord(w)
    requires start + |w| < |s| ==> !IsWordChar(s[start + |w|])
    ensures WordRun(s, start) == w
    decreases |w|
  {
    if w != [] {
      assert s[start] == w[0];
      assert s[start + 1..start + |w|] == w[1..];
      WordRunIs(s, start + 1, w[1..]);
    }
  }

  /** The first whitespace of `name + " " + rest` is the one after the name. */
  lemma FirstSpaceAfter(name: string, rest: string)
    requires AllWord(name)
    ensures FirstSpace(name + " " + rest, 0) == |name|
  {
    var tt := name + " " + rest;
    assert tt[|name|] == ' ';
    assert forall k :: 0 <= k < |name| ==> tt[k] == name[k];
  }

  /** `tag_args(name + " " + digits, "S")` cuts the digits back into one field per byte. */
  lemma ListedArgs(name: string, xs: seq<Byte>)
    requires AllWord(name)
    ensures TagArgs(name + " " + HexRun(xs), S) == Ok(Hex2s(xs))
  {
    var tt := name + " " + HexRun(xs);
    FirstSpaceAfter(name, HexRun(xs));
    HexRunIsWord(xs);
    assert tt[|name| + 1..] == HexRun(xs);
    WordRunIs(tt, |name| + 1, HexRun(xs));
    ChunksOfHexRun(xs);
  }

  /** Reading each two-digit field back gives the bytes written. */
  lemma {:induction false} ParsesBack(tag: string, ys: seq<Byte>)
    ensures ParseEach(tag, Hex2s(ys)) == Ok(ys)
  {
    if ys != [] {
      ParseHex2(ys[0]);
      ParsesBack(tag, ys[1..]);
      assert Hex2s(ys)[1..] == Hex2s(ys[1..]);
      assert [ys[0]] + ys[1..] == ys;
    }
  }

  lemma ArrangeHex2s(ys: seq<Byte>, order: Order)
    ensures Arrange(Hex2s(ys), order) == Hex2s(Arrange(ys, order))
  {
    if order == Reversed {
      ReverseHex2s(ys);
    }
  }

  lemma {:induction false} ReverseHex2s(ys: seq<Byte>)
    ensures Reverse(Hex2s(ys)) == Hex2s(Reverse(ys))
  {
    if ys != [] {
      ReverseHex2s(ys[1..]);
      Hex2sAppend(Reverse(ys[1..]), [ys[0]]);
      assert Hex2s(ys)[1..] == Hex2s(ys[1..]);
    }
  }

  lemma {:induction false} Hex2sAppend(a: seq<Byte>, b: seq<Byte>)
    ensures Hex2s(a + b) == Hex2s(a) + Hex2s(b)
  {
    if a != [] {
      assert (a + b)[0] == a[0] && (a + b)[1..] == a[1..] + b;
      Hex2sAppend(a[1..], b);
      var x := [Hex2(a[0])];
      assert x + (Hex2s(a[1..]) + Hex2s(b)) == (x + Hex2s(a[1..])) + Hex2s(b);
    } else {
      assert a + b == b;
    }
  }

  lemma ArrangeTwice<T>(ys: seq<T>, order: Order)
    ensures Arrange(Arrange(ys, order), order) == ys
  {
  }

  /** A listed control code's rule reads back the argument bytes the decoder printed. */
  lemma SpacedApply(name: string, ys: seq<Byte>, op: Byte, order: Order)
    requires AllWord(name)
    ensures Apply(name + " " + HexRun(Arrange(ys, order)), Spaced(op, order)) == Ok([op] + ys)
  {
    var tt := name + " " + HexRun(Arrange(ys, order));
    ListedArgs(name, Arrange(ys, order));
    ArrangeHex2s(Arrange(ys, order), order);
    ArrangeTwice(ys, order);
    ParsesBack(tt, ys);
  }

  /** COLOR reads the first field only; the decoder prints exactly one. */
  lemma ColorApply(name: string, b: Byte)
    requires AllWord(name)
    ensures Apply(name + " " + HexRun([b]), Color) == Ok([0x89, b])
  {
    var tt := name + " " + HexRun([b]);
    ListedArgs(name, [b]);
    var args := Hex2s([b]);
    assert args[..1] == args;
    ParsesBack(tt, [b]);
    ColorReads(tt, args, [b]);
    assert [0x89] + [b] == [0x89, b];
  }

  lemma ColorReads(tag: string, args: seq<string>, values: seq<Byte>)
    requires TagArgs(tag, S) == Ok(args) && args != []
    requires |args[0]| <= 2 && ParseEach(tag, args[..1]) == Ok(values)
    ensures Apply(tag, Color) == Ok([0x89] + values)
  {
  }

  /** The `k`-th rule is the first one `tag` matches. */
  predicate Picks(tag: string, k: nat)
  {
    k < |RULES| && Matches(tag, RULES[k]) && forall j :: 0 <= j < k ==> !Matches(tag, RULES[j])
  }

  /** What `Dispatch` makes of the bytes a rule's action writes: they, and whether the line break after the tag is dropped. */
  function Written(r: Result<seq<Byte>>, newline: bool): Result<Encoded>
  {
    match r
    case Ok(bytes) => Ok(Encoded(bytes, newline))
    case Err(e) => Err(e)
  }

  /** Every tag starting with `lead` is encoded by `action`, and drops the line break after it as `newline` says. */
  ghost predicate Claims(lead: string, action: Action, newline: bool)
  {
    forall t :: lead <= t ==> Dispatch(t, 0) == Written(Apply(t, action), newline)
  }

  /** Rules that do not match are passed over. */
  lemma {:induction false} SkipTo(tag: string, k: nat)
    requires k <= |RULES|
    requires forall j :: 0 <= j < k ==> !Matches(tag, RULES[j])
    ensures Dispatch(tag, 0) == Dispatch(tag, k)
  {
    if k > 0 {
      SkipTo(tag, k - 1);
    }
  }

  /** The first rule that matches decides the encoding. */
  lemma Chosen(tag: string, k: nat, action: Action, newline: bool)
    requires Picks(tag, k) && RULES[k].action == action && RULES[k].skipsNewline == newline
    ensures Dispatch(tag, 0) == Written(Apply(tag, action), newline)
  {
    SkipTo(tag, k);
  }

  lemma TokenNameHasNoSpace(t: Token)
    ensures forall i :: 0 <= i < |TokenName(t)| ==> TokenName(t)[i] != ' '
  {
  }

  /** A tag with a space in it is not the name of a token. */
  lemma NotAToken(tag: string, i: nat)
    requires i < |tag| && tag[i] == ' '
    ensures EncodeTag(tag) == Dispatch(tag, 0)
  {
    var s := "<" + tag + ">";
    assert s[1..|s| - 1] == tag;
    if TokenNamed(tag).Some? {
      TokenNamedIsName(tag);
      TokenNameHasNoSpace(TokenNamed(tag).value);
    }
  }

  /** The digits of each field, in order. */
  function Values(fs: seq<Field>): (r: seq<string>)
    ensures |r| == |fs|
  {
    if fs == [] then [] else [HexRun(fs[0].value)] + Values(fs[1..])
  }

  predicate NoEquals(s: string)
  {
    forall k :: 0 <= k < |s| ==> s[k] != '='
  }

  lemma WordIsOpen(s: string)
    requires AllWord(s)
    ensures '>' !in s
  {
  }

  /** The decoder's keyed fields never close the tag. */
  lemma {:induction false} FieldsTextOpen(fs: seq<Field>)
    requires forall i :: 0 <= i < |fs| ==> '>' !in fs[i].key
    ensures '>' !in FieldsText(fs)
    decreases |fs|
  {
    if fs != [] {
      HexRunIsWord(fs[0].value);
      WordIsOpen(HexRun(fs[0].value));
      FieldsTextOpen(fs[1..]);
    }
  }

  /** A name or key that neither closes a tag nor opens a block label. */
  predicate Plain(s: string)
  {
    '>' !in s && '[' !in s
  }

  /** The names and keys of a tag are plain. */
  predicate PlainTag(t: Tag)
  {
    match t
    case Listed(name, _) => AllWord(name)
    case Keyed(name, fs) => Plain(name) && forall i :: 0 <= i < |fs| ==> Plain(fs[i].key)
    case Bare(name) => AllWord(name)
    case Raw(_) => true
  }

  /** The text of a tag with plain names and keys holds no '>': the tag ends at the bracket after it. */
  lemma TagOpen(t: Tag)
    requires PlainTag(t)
    ensures '>' !in TagText(t)
  {
    match t
    case Listed(name, xs) =>
      HexRunIsWord(xs);
      WordIsOpen(HexRun(xs));
      WordIsOpen(name);
    case Keyed(name, fs) =>
      FieldsTextOpen(fs);
    case Bare(name) =>
      WordIsOpen(name);
    case Raw(b) =>
      var h := Hex2(b);
      assert IsWordChar(h[0]) && IsWordChar(h[1]);
      WordIsOpen(h);
  }

  /** The layouts print each field as one or two bytes under a key without '='. */
  predicate WellFormed(layout: Layout)
  {
    forall i :: 0 <= i < |layout| ==> NoEquals(layout[i].0) && 1 <= layout[i].1 <= 2
  }

  lemma LayoutsWellFormed()
    ensures WellFormed(MENU_LAYOUT) && WellFormed(WINDOW_LAYOUT) && WellFormed(WINDOW_94_LAYOUT)
  {
  }

  /** MENU reads nine argument bytes, the window codes ten and eleven. */
  lemma LayoutsOpen()
    ensures forall i :: 0 <= i < |MENU_LAYOUT| ==> Plain(MENU_LAYOUT[i].0)
    ensures forall i :: 0 <= i < |WINDOW_LAYOUT| ==> Plain(WINDOW_LAYOUT[i].0)
    ensures forall i :: 0 <= i < |WINDOW_94_LAYOUT| ==> Plain(WINDOW_94_LAYOUT[i].0)
  {
  }

  lemma LayoutTotals()
    ensures Total(MENU_LAYOUT) == 9 && Total(WINDOW_LAYOUT) == 10 && Total(WINDOW_94_LAYOUT) == 11
  {
  }

  /** `tag_args(tag, "M")` finds the digits of every field of the decoder's keyed text. */
  lemma {:induction false} KeyedValuesOfFields(p: string, start: nat, fs: seq<Field>)
    requires start <= |p| && forall k :: start <= k < |p| ==> p[k] != '='
    requires forall i :: 0 <= i < |fs| ==> NoEquals(fs[i].key)
    ensures KeyedValues(p + FieldsText(fs), start) == Values(fs)
    decreases |fs|
  {
    if fs == [] {
      assert p + FieldsText(fs) == p;
    } else {
      var h, tail := HexRun(fs[0].value), FieldsText(fs[1..]);
      var q := p + " " + fs[0].key + "=" + h;
      FieldsTextUnfolds(p, fs);
      HexRunIsWord(fs[0].value);
      FirstField(p, start, fs[0].key, h, tail);
      KeyedValuesOfFields(q, |q|, fs[1..]);
    }
  }

  lemma FieldsTextUnfolds(p: string, fs: seq<Field>)
    requires fs != []
    ensures p + FieldsText(fs) == p + " " + fs[0].key + "=" + HexRun(fs[0].value) + FieldsText(fs[1..])
    ensures FieldsText(fs[1..]) == [] || FieldsText(fs[1..])[0] == ' '
  {
    Regroup(p, " ", fs[0].key, "=", HexRun(fs[0].value), FieldsText(fs[1..]));
    FieldsTextStarts(fs[1..]);
  }

  lemma FieldsTextStarts(fs: seq<Field>)
    ensures FieldsText(fs) == [] || FieldsText(fs)[0] == ' '
  {
  }

  lemma Regroup(p: string, a: string, b: string, c: string, d: string, e: string)
    ensures p + (a + b + c + d + e) == p + a + b + c + d + e
  {
  }

  /** The first field's value, then the search goes on after it. */
  lemma FirstField(p: string, start: nat, key: string, h: string, tail: string)
    requires start <= |p| && forall k :: start <= k < |p| ==> p[k] != '='
    requires NoEquals(key) && AllWord(h) && (tail == [] || tail[0] == ' ')
    ensures KeyedValues(p + " " + key + "=" + h + tail, start)
      == [h] + KeyedValues(p + " " + key + "=" + h + tail, |p + " " + key + "=" + h|)
  {
    var s := p + " " + key + "=" + h + tail;
    FieldFind(p, start, key, h, tail);
    FieldWord(p, key, h, tail);
    KeyedValuesStep(s, start, |p| + 1 + |key|, |p + " " + key + "="|, h, |p + " " + key + "=" + h|);
  }

  /** The search for '=' lands on the one after the first key. */
  lemma FieldFind(p: string, start: nat, key: string, h: string, tail: string)
    requires start <= |p| && forall k :: start <= k < |p| ==> p[k] != '='
    requires NoEquals(key)
    ensures Find(p + " " + key + "=" + h + tail, '=', start) == |p| + 1 + |key|
  {
    FindFirstKey(p, start, key, h + tail);
    assert p + " " + key + "=" + h + tail == p + " " + key + "=" + (h + tail);
  }

  /** The word run after the first key's '=' is its value. */
  lemma FieldWord(p: string, key: string, h: string, tail: string)
    requires AllWord(h) && (tail == [] || tail[0] == ' ')
    ensures WordRun(p + " " + key + "=" + h + tail, |p + " " + key + "="|) == h
  {
    WordRunOfField(p + " " + key + "=", h, tail);
  }

  /** The first '=' after `p` is the one after the first key. */
  lemma FindFirstKey(p: string, start: nat, key: string, tail: string)
    requires start <= |p| && forall k :: start <= k < |p| ==> p[k] != '='
    requires NoEquals(key)
    ensures Find(p + " " + key + "=" + tail, '=', start) == |p| + 1 + |key|
  {
    var s := p + " " + key + "=" + tail;
    var e := |p| + 1 + |key|;
    assert s[e] == '=';
    forall k | start <= k < e
      ensures s[k] != '='
    {
      if k < |p| {
        assert s[k] == p[k];
      } else if k > |p| {
        assert s[k] == key[k - |p| - 1];
      }
    }
  }

  /** The word run after a key's '=' is the value. */
  lemma WordRunOfField(q: string, h: string, tail: string)
    requires AllWord(h) && (tail == [] || tail[0] == ' ')
    ensures WordRun(q + h + tail, |q|) == h
  {
    var s := q + h + tail;
    assert s[|q|..|q| + |h|] == h;
    if tail != [] {
      assert s[|q| + |h|] == ' ';
    }
    WordRunIs(s, |q|, h);
  }

  lemma KeyedValuesStep(s: string, start: nat, e: nat, at: nat, v: string, next: nat)
    requires Find(s, '=', start) == e && at == e + 1 && WordRun(s, at) == v && next == e + 1 + |v|
    ensures KeyedValues(s, start) == [v] + KeyedValues(s, next)
  {
  }

  /** A field printed high byte first reads back as the bytes it was cut from. */
  lemma FieldBack(tag: string, chunk: seq<Byte>)
    requires 1 <= |chunk| <= 2
    ensures FieldBytes(tag, HexRun(Reverse(chunk))) == Ok(chunk)
  {
    if |chunk| == 1 {
      FieldBackOne(tag, chunk);
    } else {
      FieldBackTwo(tag, chunk);
    }
  }

  lemma FieldBackOne(tag: string, chunk: seq<Byte>)
    requires |chunk| == 1
    ensures FieldBytes(tag, HexRun(Reverse(chunk))) == Ok(chunk)
  {
    assert chunk == [chunk[0]];
    FieldByte(tag, chunk[0]);
  }

  lemma FieldByte(tag: string, x: Byte)
    ensures FieldBytes(tag, HexRun(Reverse([x]))) == Ok([x])
  {
    assert HexRun(Reverse([x])) == Hex2(x) by {
      assert Reverse([x]) == [x];
      assert HexRun([x]) == Hex2(x) + HexRun([]);
    }
    ParseHex2(x);
  }

  lemma FieldBackTwo(tag: string, chunk: seq<Byte>)
    requires |chunk| == 2
    ensures FieldBytes(tag, HexRun(Reverse(chunk))) == Ok(chunk)
  {
    assert chunk == [chunk[0], chunk[1]];
    FieldPair(tag, chunk[1], chunk[0]);
  }

  lemma FieldPair(tag: string, hi: Byte, lo: Byte)
    ensures FieldBytes(tag, HexRun(Reverse([lo, hi]))) == Ok([lo, hi])
  {
    assert HexRun(Reverse([lo, hi])) == Hex2(hi) + Hex2(lo) by {
      assert Reverse([lo, hi]) == [hi, lo];
      assert [hi, lo][1..] == [lo];
      assert HexRun([lo]) == Hex2(lo) + HexRun([]);
    }
    ParseHex4(hi, lo);
    SplitWord(hi, lo);
  }

  lemma SplitWord(hi: Byte, lo: Byte)
    ensures Uint16Bytes(0x100 * hi + lo) == [lo, hi]
  {
  }

  lemma FieldsBytesStep(tag: string, args: seq<string>, b: seq<Byte>, rest: seq<Byte>)
    requires args != [] && FieldBytes(tag, args[0]) == Ok(b) && FieldsBytes(tag, args[1..]) == Ok(rest)
    ensures FieldsBytes(tag, args) == Ok(b + rest)
  {
  }

  lemma CutUnfolds(layout: Layout, xs: seq<Byte>)
    requires layout != [] && |xs| == Total(layout)
    ensures layout[0].1 <= |xs|
    ensures Values(Cut(layout, xs))[0] == HexRun(Reverse(xs[..layout[0].1]))
    ensures Values(Cut(layout, xs))[1..] == Values(Cut(layout[1..], xs[layout[0].1..]))
  {
  }

  /** The bytes of the printed fields are the argument bytes the fields were cut from. */
  lemma {:induction false} FieldsBytesOfCut(tag: string, layout: Layout, xs: seq<Byte>)
    requires |xs| == Total(layout) && WellFormed(layout)
    ensures FieldsBytes(tag, Values(Cut(layout, xs))) == Ok(xs)
    decreases |layout|
  {
    if layout != [] {
      var w := layout[0].1;
      CutUnfolds(layout, xs);
      FieldBack(tag, xs[..w]);
      FieldsBytesOfCut(tag, layout[1..], xs[w..]);
      FieldsBytesStep(tag, Values(Cut(layout, xs)), xs[..w], xs[w..]);
      assert xs[..w] + xs[w..] == xs;
    }
  }

  lemma {:induction false} CutKeys(layout: Layout, xs: seq<Byte>)
    requires |xs| == Total(layout)
    ensures |Cut(layout, xs)| == |layout|
    ensures forall i :: 0 <= i < |layout| ==> Cut(layout, xs)[i].key == layout[i].0
    decreases |layout|
  {
    if layout != [] {
      CutKeys(layout[1..], xs[layout[0].1..]);
    }
  }

  /** A keyed control code's rule reads back the argument bytes the decoder printed. */
  lemma KeyedApply(name: string, layout: Layout, xs: seq<Byte>, op: Byte)
    requires NoEquals(name) && WellFormed(layout) && |xs| == Total(layout)
    ensures Apply(name + FieldsText(Cut(layout, xs)), Action.Keyed(op)) == Ok([op] + xs)
  {
    var tt := name + FieldsText(Cut(layout, xs));
    CutKeys(layout, xs);
    KeyedValuesOfFields(name, 0, Cut(layout, xs));
    FieldsBytesOfCut(tt, layout, xs);
    KeyedReads(tt, Values(Cut(layout, xs)), xs, op);
  }

  lemma KeyedReads(tag: string, args: seq<string>, values: seq<Byte>, op: Byte)
    requires TagArgs(tag, M) == Ok(args) && FieldsBytes(tag, args) == Ok(values)
    ensures Apply(tag, Action.Keyed(op)) == Ok([op] + values)
  {
  }

  /** A listed control code whose text is encoded by the spaced action of its opcode reads the bytes back. */
  lemma ListedBack(bs: seq<Byte>, name: string, w: nat, order: Order, newline: bool)
    requires 2 <= w <= |bs| && AllWord(name)
    requires Dispatch(TagText(Listed(name, Arrange(bs[1..w], order))), 0)
      == Written(Apply(TagText(Listed(name, Arrange(bs[1..w], order))), Spaced(bs[0], order)), newline)
    ensures ReadsBack(bs, Unit(Control(Listed(name, Arrange(bs[1..w], order)), newline), w))
  {
    var tt := TagText(Listed(name, Arrange(bs[1..w], order)));
    SpacedApply(name, bs[1..w], bs[0], order);
    assert [bs[0]] + bs[1..w] == bs[..w];
    NotAToken(tt, |name|);
  }

  /** A listed control code whose rule is claimed by its name. */
  lemma ListedClaimed(bs: seq<Byte>, name: string, w: nat, order: Order, newline: bool)
    requires 2 <= w <= |bs| && AllWord(name)
    requires Claims(name, Spaced(bs[0], order), newline)
    ensures ReadsBack(bs, Unit(Control(Listed(name, Arrange(bs[1..w], order)), newline), w))
  {
    ListedDispatch(name, Arrange(bs[1..w], order), Spaced(bs[0], order), newline);
    ListedBack(bs, name, w, order, newline);
  }

  lemma ListedDispatch(name: string, args: seq<Byte>, action: Action, newline: bool)
    requires Claims(name, action, newline)
    ensures Dispatch(TagText(Listed(name, args)), 0) == Written(Apply(TagText(Listed(name, args)), action), newline)
  {
    NamePrefix(name, " ", HexRun(args));
  }

  /** Every tag starting with `lead` and ending with `tail` is encoded by `action`, and drops the line break after it as `newline` says. */
  ghost predicate ClaimsEnding(lead: string, tail: string, action: Action, newline: bool)
  {
    forall t :: lead <= t && EndsWith(t, tail) ==> Dispatch(t, 0) == Written(Apply(t, action), newline)
  }

  /** A listed control code printed in order, whose rule is claimed by its name and the digits of its last byte. */
  lemma ListedEndsBack(bs: seq<Byte>, name: string, w: nat, tail: string, newline: bool)
    requires 2 <= w <= |bs| && AllWord(name) && Hex2(bs[w - 1]) == tail
    requires ClaimsEnding(name, tail, Spaced(bs[0], InOrder), newline)
    ensures ReadsBack(bs, Unit(Control(Listed(name, Arrange(bs[1..w], InOrder)), newline), w))
  {
    assert bs[1..w][|bs[1..w]| - 1] == bs[w - 1];
    ListedEndsDispatch(name, bs[1..w], tail, Spaced(bs[0], InOrder), newline);
    ListedBack(bs, name, w, InOrder, newline);
  }

  lemma ListedEndsDispatch(name: string, xs: seq<Byte>, tail: string, action: Action, newline: bool)
    requires xs != [] && Hex2(xs[|xs| - 1]) == tail && ClaimsEnding(name, tail, action, newline)
    ensures Dispatch(TagText(Listed(name, Arrange(xs, InOrder))), 0) == Written(Apply(TagText(Listed(name, Arrange(xs, InOrder))), action), newline)
  {
    HexRunEnds(xs);
    EndsWithAfter(name + " ", HexRun(xs), tail);
    NamePrefix(name, " ", HexRun(xs));
  }

  /** COLOR, when its text is encoded by the colour action, reads the byte back. */
  lemma ColorBack(bs: seq<Byte>, name: string)
    requires 2 <= |bs| && bs[0] == 0x89 && AllWord(name)
    requires Dispatch(TagText(Listed(name, bs[1..2])), 0) == Written(Apply(TagText(Listed(name, bs[1..2])), Color), false)
    ensures ReadsBack(bs, Unit(Control(Listed(name, Arrange(bs[1..2], InOrder)), false), 2))
  {
    var tt := TagText(Listed(name, bs[1..2]));
    assert bs[1..2] == [bs[1]];
    ColorApply(name, bs[1]);
    assert [0x89, bs[1]] == bs[..2];
    NotAToken(tt, |name|);
  }

  /** A keyed control code whose text is encoded by the keyed action of its opcode reads the bytes back. */
  lemma KeyedCore(bs: seq<Byte>, name: string, layout: Layout, newline: bool)
    requires NoEquals(name) && WellFormed(layout) && layout != [] && Span(layout) <= |bs|
    requires Dispatch(TagText(Tag.Keyed(name, Cut(layout, bs[1..Span(layout)]))), 0)
      == Written(Apply(TagText(Tag.Keyed(name, Cut(layout, bs[1..Span(layout)]))), Action.Keyed(bs[0])), newline)
    ensures ReadsBack(bs, Unit(Control(Tag.Keyed(name, Cut(layout, bs[1..Span(layout)])), newline), Span(layout)))
  {
    KeyedFacts(bs, name, layout);
  }

  /** A keyed text names no token, and the keyed action of its opcode writes the bytes it was printed from. */
  lemma KeyedFacts(bs: seq<Byte>, name: string, layout: Layout)
    requires NoEquals(name) && WellFormed(layout) && layout != [] && Span(layout) <= |bs|
    ensures EncodeTag(TagText(Tag.Keyed(name, Cut(layout, bs[1..Span(layout)]))))
      == Dispatch(TagText(Tag.Keyed(name, Cut(layout, bs[1..Span(layout)]))), 0)
    ensures Apply(TagText(Tag.Keyed(name, Cut(layout, bs[1..Span(layout)]))), Action.Keyed(bs[0])) == Ok(bs[..Span(layout)])
  {
    KeyedApply(name, layout, bs[1..Span(layout)], bs[0]);
    assert [bs[0]] + bs[1..Span(layout)] == bs[..Span(layout)];
    KeyedNotAToken(name, layout, bs[1..Span(layout)]);
  }

  /** A keyed text has a space after its name, so it names no token. */
  lemma KeyedNotAToken(name: string, layout: Layout, xs: seq<Byte>)
    requires layout != [] && |xs| == Total(layout)
    ensures EncodeTag(TagText(Tag.Keyed(name, Cut(layout, xs)))) == Dispatch(TagText(Tag.Keyed(name, Cut(layout, xs))), 0)
  {
    CutKeys(layout, xs);
    SpaceAfterName(name, Cut(layout, xs));
    NotAToken(TagText(Tag.Keyed(name, Cut(layout, xs))), |name|);
  }

  /** A keyed control code whose rule is claimed by its name. */
  lemma KeyedBack(bs: seq<Byte>, name: string, layout: Layout, newline: bool)
    requires NoEquals(name) && WellFormed(layout) && layout != [] && Span(layout) <= |bs|
    requires Claims(name, Action.Keyed(bs[0]), newline)
    ensures ReadsBack(bs, Unit(Control(Tag.Keyed(name, Cut(layout, bs[1..Span(layout)])), newline), Span(layout)))
  {
    KeyedDispatch(bs, name, layout, newline);
    KeyedCore(bs, name, layout, newline);
  }

  lemma KeyedDispatch(bs: seq<Byte>, name: string, layout: Layout, newline: bool)
    requires Span(layout) <= |bs| && Claims(name, Action.Keyed(bs[0]), newline)
    ensures Dispatch(TagText(Tag.Keyed(name, Cut(layout, bs[1..Span(layout)]))), 0)
      == Written(Apply(TagText(Tag.Keyed(name, Cut(layout, bs[1..Span(layout)]))), Action.Keyed(bs[0])), newline)
  {
    NameStarts(name, Cut(layout, bs[1..Span(layout)]));
  }

  /** A window control code whose rule is claimed by its name and its one-byte field `T`. */
  lemma WindowBack(bs: seq<Byte>, name: string, layout: Layout, b: Byte)
    requires NoEquals(name) && WellFormed(layout) && layout != [] && Span(layout) <= |bs|
    requires var fs := Cut(layout, bs[1..Span(layout)]); fs != [] && fs[0] == Field("T", [b])
    requires Claims(name + " T=" + Hex2(b), Action.Keyed(bs[0]), true)
    ensures ReadsBack(bs, Unit(Control(Tag.Keyed(name, Cut(layout, bs[1..Span(layout)])), true), Span(layout)))
  {
    WindowDispatch(bs, name, layout, b);
    KeyedCore(bs, name, layout, true);
  }

  lemma WindowDispatch(bs: seq<Byte>, name: string, layout: Layout, b: Byte)
    requires Span(layout) <= |bs|
    requires var fs := Cut(layout, bs[1..Span(layout)]); fs != [] && fs[0] == Field("T", [b])
    requires Claims(name + " T=" + Hex2(b), Action.Keyed(bs[0]), true)
    ensures Dispatch(TagText(Tag.Keyed(name, Cut(layout, bs[1..Span(layout)]))), 0)
      == Written(Apply(TagText(Tag.Keyed(name, Cut(layout, bs[1..Span(layout)]))), Action.Keyed(bs[0])), true)
  {
    WindowStarts(name, Cut(layout, bs[1..Span(layout)]), b);
  }

  lemma SpaceAfterName(name: string, fs: seq<Field>)
    requires fs != []
    ensures |name| < |name + FieldsText(fs)| && (name + FieldsText(fs))[|name|] == ' '
  {
  }

  /** The first field of a keyed text, when it holds one byte. */
  lemma KeyedHead(name: string, fs: seq<Field>, b: Byte)
    requires fs != [] && fs[0].value == [b]
    ensures name + " " + fs[0].key + "=" + Hex2(b) <= name + FieldsText(fs)
  {
    assert HexRun([b]) == Hex2(b) + HexRun([]);
    FieldsTextUnfolds(name, fs);
  }

  /** A one-byte first field of a layout holds the first argument byte. */
  lemma CutHead(layout: Layout, xs: seq<Byte>)
    requires layout != [] && layout[0].1 == 1 && |xs| == Total(layout)
    ensures Cut(layout, xs) != [] && Cut(layout, xs)[0] == Field(layout[0].0, [xs[0]])
  {
    assert Reverse(xs[..1]) == [xs[0]];
  }

  /** The digits of the last byte end a run. */
  lemma {:induction false} HexRunEnds(xs: seq<Byte>)
    requires xs != []
    ensures EndsWith(HexRun(xs), Hex2(xs[|xs| - 1]))
  {
    if |xs| > 1 {
      HexRunEnds(xs[1..]);
      assert xs[1..][|xs[1..]| - 1] == xs[|xs| - 1];
    }
  }

  lemma EndsWithAfter(p: string, s: string, q: string)
    requires EndsWith(s, q)
    ensures EndsWith(p + s, q)
  {
    assert (p + s)[|p + s| - |q|..] == s[|s| - |q|..];
  }

  /** No token name is longer than eight characters. */
  lemma TokenNameShort(t: Token)
    ensures |TokenName(t)| <= 8
  {
  }

  /** The two-character token names start with 'L' or 'R'. */
  lemma TokenNamePair(t: Token)
    ensures |TokenName(t)| == 2 ==> TokenName(t)[0] == 'L' || TokenName(t)[0] == 'R'
  {
  }

  /** A tag longer than any token name is not a token. */
  lemma LongNotAToken(tag: string)
    requires |tag| > 8
    ensures EncodeTag(tag) == Dispatch(tag, 0)
  {
    var s := "<" + tag + ">";
    assert s[1..|s| - 1] == tag;
    if TokenNamed(tag).Some? {
      TokenNamedIsName(tag);
      TokenNameShort(TokenNamed(tag).value);
    }
  }

  lemma PriceBytes(bs: seq<Byte>)
    requires PriceFollows(bs)
    ensures bs[..7] == [bs[0], 0x4F, 0x4F, 0x4F, 0x4F, 0x4F, 0x4F]
  {
  }

  /** PRICE_ZAIRE and PRICE_ZENNY: the rule writes the opcode and six spaces back. */
  lemma PriceApply(name: string, bs: seq<Byte>)
    requires PriceFollows(bs)
    ensures Apply(name, Price(bs[0])) == Ok(bs[..7])
  {
    PriceBytes(bs);
  }

  /** Every rule names its control code with at least three characters. */
  lemma PrefixesLong()
    ensures forall j :: 0 <= j < |RULES| ==> 3 <= |RULES[j].prefix|
  {
  }

  /** A raw byte's two digits name neither a token nor a control code, and read back as the byte. */
  lemma RawBack(b: Byte)
    ensures EncodeTag(Hex2(b)) == Ok(Encoded([b], false))
  {
    var tag := Hex2(b);
    var s := "<" + tag + ">";
    assert s[1..|s| - 1] == tag;
    if TokenNamed(tag).Some? {
      TokenNamedIsName(tag);
      TokenNamePair(TokenNamed(tag).value);
      assert false;
    }
    PrefixesLong();
    SkipTo(tag, |RULES|);
    ParseHex2(b);
  }

  /**
   * A tag that starts with the name of the `k`-th rule matches that rule and
   * none of the rules before it: the names differ at the positions the
   * assertions name.
   */
  lemma Rule0(tt: string)
    requires "PAUSE" <= tt
    ensures Picks(tt, 0)
  {
    assert tt[|tt|..] == [];
  }

  lemma Rule1(tt: string)
    requires "UNK1" <= tt && EndsWith(tt, "FF")
    ensures Picks(tt, 1)
  {
    assert tt[0] == 'U';
  }

  lemma Rule2(tt: string)
    requires "UNK2" <= tt
    ensures Picks(tt, 2)
  {
    assert tt[0] == 'U' && tt[3] == '2';
  }

  lemma Rule3(tt: string)
    requires "MENU" <= tt
    ensures Picks(tt, 3)
  {
    assert tt[0] == 'M';
  }

  lemma Rule4(tt: string)
    requires "UNK3" <= tt
    ensures Picks(tt, 4)
  {
    assert tt[0] == 'U' && tt[3] == '3';
  }

  lemma Rule5(tt: string)
    requires "AUDIO" <= tt
    ensures Picks(tt, 5)
  {
    assert tt[0] == 'A';
  }

  lemma Rule6(tt: string)
    requires "COLOR" <= tt
    ensures Picks(tt, 6)
  {
    assert tt[0] == 'C';
  }

  lemma Rule7(tt: string)
    requires "UNK4" <= tt
    ensures Picks(tt, 7)
  {
    assert tt[0] == 'U' && tt[3] == '4';
  }

  lemma Rule8(tt: string)
    requires "SEL" <= tt
    ensures Picks(tt, 8)
  {
    assert tt[0] == 'S';
  }

  lemma Rule9(tt: string)
    requires "JMP" <= tt
    ensures Picks(tt, 9)
  {
    assert tt[0] == 'J';
  }

  lemma Rule10(tt: string)
    requires "UNK5" <= tt
    ensures Picks(tt, 10)
  {
    assert tt[0] == 'U' && tt[3] == '5';
  }

  lemma Rule11(tt: string)
    requires "UNK6" <= tt
    ensures Picks(tt, 11)
  {
    assert tt[0] == 'U' && tt[3] == '6';
  }

  lemma Rule12(tt: string)
    requires "MSG_ID" <= tt
    ensures Picks(tt, 12)
  {
    assert tt[0] == 'M' && tt[1] == 'S';
  }

  lemma Rule13(tt: string)
    requires "WIN_SUB" <= tt
    ensures Picks(tt, 13)
  {
    assert tt[0] == 'W';
  }

  lemma Rule14(tt: string)
    requires "PAD" <= tt
    ensures Picks(tt, 14)
  {
    assert tt[0] == 'P' && tt[2] == 'D';
  }

  lemma Rule15(tt: string)
    requires "WIN_MAIN_1 T=8C" <= tt
    ensures Picks(tt, 15)
  {
    assert tt[0] == 'W' && tt[4] == 'M';
  }

  lemma Rule16(tt: string)
    requires "WIN_MAIN_1 T=94" <= tt
    ensures Picks(tt, 16)
  {
    assert tt[0] == 'W' && tt[4] == 'M' && tt[13] == '9';
  }

  lemma Rule17(tt: string)
    requires "WIN_MAIN_2" <= tt
    ensures Picks(tt, 17)
  {
    assert tt[0] == 'W' && tt[4] == 'M' && tt[9] == '2';
  }

  lemma Rule18(tt: string)
    requires "WAIT" <= tt
    ensures Picks(tt, 18)
  {
    assert tt[0] == 'W' && tt[1] == 'A';
  }

  lemma Rule19(tt: string)
    requires "CLOSE" <= tt
    ensures Picks(tt, 19)
  {
    assert tt[0] == 'C' && tt[1] == 'L';
  }

  lemma Rule20(tt: string)
    requires "PRICE_ZAIRE" <= tt
    ensures Picks(tt, 20)
  {
    assert tt[0] == 'P' && tt[1] == 'R';
  }

  lemma Rule21(tt: string)
    requires "ITEM" <= tt
    ensures Picks(tt, 21)
  {
    assert tt[0] == 'I';
  }

  lemma Rule22(tt: string)
    requires "PRICE_ZENNY" <= tt
    ensures Picks(tt, 22)
  {
    assert tt[0] == 'P' && tt[1] == 'R' && tt[7] == 'E';
  }

  lemma NamePrefix(name: string, gap: string, rest: string)
    ensures name <= name + gap + rest
  {
  }

  /** `u` is a control unit whose tag reads back as the bytes it was decoded from, with the same line break. */
  predicate ReadsBack(bs: seq<Byte>, u: Unit)
  {
    u.piece.Control? ==>
      u.width <= |bs| && EncodeTag(TagText(u.piece.tag)) == Ok(Encoded(bs[..u.width], u.piece.newline))
  }

  lemma PauseRule()
    ensures AllWord("PAUSE") && Claims("PAUSE", Spaced(0x8B, Reversed), true)
  {
    forall t | "PAUSE" <= t
      ensures Dispatch(t, 0) == Written(Apply(t, Spaced(0x8B, Reversed)), true)
    {
      Rule0(t);
      Chosen(t, 0, Spaced(0x8B, Reversed), true);
    }
  }

  lemma PauseBack(bs: seq<Byte>)
    requires 3 <= |bs| && bs[0] == 0x8B
    ensures ReadsBack(bs, Unit(Control(Listed("PAUSE", Arrange(bs[1..3], Reversed)), true), 3))
  {
    PauseRule();
    ListedClaimed(bs, "PAUSE", 3, Reversed, true);
  }

  lemma Unk1Rule()
    ensures AllWord("UNK1") && ClaimsEnding("UNK1", "FF", Spaced(0x8A, InOrder), true)
  {
    forall t | "UNK1" <= t && EndsWith(t, "FF")
      ensures Dispatch(t, 0) == Written(Apply(t, Spaced(0x8A, InOrder)), true)
    {
      Rule1(t);
      Chosen(t, 1, Spaced(0x8A, InOrder), true);
    }
  }

  lemma Unk1Back(bs: seq<Byte>)
    requires 7 <= |bs| && bs[0] == 0x8A && bs[6] == 0xFF
    ensures ReadsBack(bs, Unit(Control(Listed("UNK1", Arrange(bs[1..7], InOrder)), true), 7))
  {
    Unk1Rule();
    DigitsFF();
    ListedEndsBack(bs, "UNK1", 7, "FF", true);
  }

  lemma DigitsFF()
    ensures Hex2(0xFF) == "FF"
  {
  }

  lemma Unk2Rule()
    ensures AllWord("UNK2") && Claims("UNK2", Spaced(0x8A, InOrder), false)
  {
    forall t | "UNK2" <= t
      ensures Dispatch(t, 0) == Written(Apply(t, Spaced(0x8A, InOrder)), false)
    {
      Rule2(t);
      Chosen(t, 2, Spaced(0x8A, InOrder), false);
    }
  }

  lemma Unk2Back(bs: seq<Byte>)
    requires 3 <= |bs| && bs[0] == 0x8A
    ensures ReadsBack(bs, Unit(Control(Listed("UNK2", Arrange(bs[1..3], InOrder)), false), 3))
  {
    Unk2Rule();
    ListedClaimed(bs, "UNK2", 3, InOrder, false);
  }

  lemma Unk3Rule()
    ensures AllWord("UNK3") && Claims("UNK3", Spaced(0x8E, InOrder), false)
  {
    forall t | "UNK3" <= t
      ensures Dispatch(t, 0) == Written(Apply(t, Spaced(0x8E, InOrder)), false)
    {
      Rule4(t);
      Chosen(t, 4, Spaced(0x8E, InOrder), false);
    }
  }

  lemma Unk3Back(bs: seq<Byte>)
    requires 3 <= |bs| && bs[0] == 0x8E
    ensures ReadsBack(bs, Unit(Control(Listed("UNK3", Arrange(bs[1..3], InOrder)), false), 3))
  {
    Unk3Rule();
    ListedClaimed(bs, "UNK3", 3, InOrder, false);
  }

  lemma AudioRule()
    ensures AllWord("AUDIO") && Claims("AUDIO", Spaced(0x8F, Reversed), true)
  {
    forall t | "AUDIO" <= t
      ensures Dispatch(t, 0) == Written(Apply(t, Spaced(0x8F, Reversed)), true)
    {
      Rule5(t);
      Chosen(t, 5, Spaced(0x8F, Reversed), true);
    }
  }

  lemma AudioBack(bs: seq<Byte>)
    requires 5 <= |bs| && bs[0] == 0x8F
    ensures ReadsBack(bs, Unit(Control(Listed("AUDIO", Arrange(bs[1..5], Reversed)), true), 5))
  {
    AudioRule();
    ListedClaimed(bs, "AUDIO", 5, Reversed, true);
  }

  lemma Unk4Rule()
    ensures AllWord("UNK4") && Claims("UNK4", Spaced(0x93, InOrder), false)
  {
    forall t | "UNK4" <= t
      ensures Dispatch(t, 0) == Written(Apply(t, Spaced(0x93, InOrder)), false)
    {
      Rule7(t);
      Chosen(t, 7, Spaced(0x93, InOrder), false);
    }
  }

  lemma Unk4Back(bs: seq<Byte>)
    requires 3 <= |bs| && bs[0] == 0x93
    ensures ReadsBack(bs, Unit(Control(Listed("UNK4", Arrange(bs[1..3], InOrder)), false), 3))
  {
    Unk4Rule();
    ListedClaimed(bs, "UNK4", 3, InOrder, false);
  }

  lemma SelRule()
    ensures AllWord("SEL") && Claims("SEL", Spaced(0x96, InOrder), false)
  {
    forall t | "SEL" <= t
      ensures Dispatch(t, 0) == Written(Apply(t, Spaced(0x96, InOrder)), false)
    {
      Rule8(t);
      Chosen(t, 8, Spaced(0x96, InOrder), false);
    }
  }

  lemma SelBack(bs: seq<Byte>)
    requires 3 <= |bs| && bs[0] == 0x96
    ensures ReadsBack(bs, Unit(Control(Listed("SEL", Arrange(bs[1..3], InOrder)), false), 3))
  {
    SelRule();
    ListedClaimed(bs, "SEL", 3, InOrder, false);
  }

  lemma JmpRule()
    ensures AllWord("JMP") && Claims("JMP", Spaced(0x99, InOrder), false)
  {
    forall t | "JMP" <= t
      ensures Dispatch(t, 0) == Written(Apply(t, Spaced(0x99, InOrder)), false)
    {
      Rule9(t);
      Chosen(t, 9, Spaced(0x99, InOrder), false);
    }
  }

  lemma JmpBack(bs: seq<Byte>)
    requires 3 <= |bs| && bs[0] == 0x99
    ensures ReadsBack(bs, Unit(Control(Listed("JMP", Arrange(bs[1..3], InOrder)), false), 3))
  {
    JmpRule();
    ListedClaimed(bs, "JMP", 3, InOrder, false);
  }

  lemma Unk5Rule()
    ensures AllWord("UNK5") && Claims("UNK5", Spaced(0x9A, Reversed), false)
  {
    forall t | "UNK5" <= t
      ensures Dispatch(t, 0) == Written(Apply(t, Spaced(0x9A, Reversed)), false)
    {
      Rule10(t);
      Chosen(t, 10, Spaced(0x9A, Reversed), false);
    }
  }

  lemma Unk5Back(bs: seq<Byte>)
    requires 3 <= |bs| && bs[0] == 0x9A
    ensures ReadsBack(bs, Unit(Control(Listed("UNK5", Arrange(bs[1..3], Reversed)), false), 3))
  {
    Unk5Rule();
    ListedClaimed(bs, "UNK5", 3, Reversed, false);
  }

  lemma Unk6Rule()
    ensures AllWord("UNK6") && Claims("UNK6", Spaced(0x9B, Reversed), false)
  {
    forall t | "UNK6" <= t
      ensures Dispatch(t, 0) == Written(Apply(t, Spaced(0x9B, Reversed)), false)
    {
      Rule11(t);
      Chosen(t, 11, Spaced(0x9B, Reversed), false);
    }
  }

  lemma Unk6Back(bs: seq<Byte>)
    requires 3 <= |bs| && bs[0] == 0x9B
    ensures ReadsBack(bs, Unit(Control(Listed("UNK6", Arrange(bs[1..3], Reversed)), false), 3))
  {
    Unk6Rule();
    ListedClaimed(bs, "UNK6", 3, Reversed, false);
  }

  lemma MsgIdRule()
    ensures AllWord("MSG_ID") && Claims("MSG_ID", Spaced(0x9C, Reversed), false)
  {
    forall t | "MSG_ID" <= t
      ensures Dispatch(t, 0) == Written(Apply(t, Spaced(0x9C, Reversed)), false)
    {
      Rule12(t);
      Chosen(t, 12, Spaced(0x9C, Reversed), false);
    }
  }

  lemma MsgIdBack(bs: seq<Byte>)
    requires 3 <= |bs| && bs[0] == 0x9C
    ensures ReadsBack(bs, Unit(Control(Listed("MSG_ID", Arrange(bs[1..3], Reversed)), false), 3))
  {
    MsgIdRule();
    ListedClaimed(bs, "MSG_ID", 3, Reversed, false);
  }

  lemma WinSubRule()
    ensures AllWord("WIN_SUB") && Claims("WIN_SUB", Spaced(0x9F, Reversed), true)
  {
    forall t | "WIN_SUB" <= t
      ensures Dispatch(t, 0) == Written(Apply(t, Spaced(0x9F, Reversed)), true)
    {
      Rule13(t);
      Chosen(t, 13, Spaced(0x9F, Reversed), true);
    }
  }

  lemma WinSubBack(bs: seq<Byte>)
    requires 4 <= |bs| && bs[0] == 0x9F
    ensures ReadsBack(bs, Unit(Control(Listed("WIN_SUB", Arrange(bs[1..4], Reversed)), true), 4))
  {
    WinSubRule();
    ListedClaimed(bs, "WIN_SUB", 4, Reversed, true);
  }

  lemma PadRule()
    ensures AllWord("PAD") && Claims("PAD", Spaced(0xA0, Reversed), false)
  {
    forall t | "PAD" <= t
      ensures Dispatch(t, 0) == Written(Apply(t, Spaced(0xA0, Reversed)), false)
    {
      Rule14(t);
      Chosen(t, 14, Spaced(0xA0, Reversed), false);
    }
  }

  lemma PadBack(bs: seq<Byte>)
    requires 3 <= |bs| && bs[0] == 0xA0
    ensures ReadsBack(bs, Unit(Control(Listed("PAD", Arrange(bs[1..3], Reversed)), false), 3))
  {
    PadRule();
    ListedClaimed(bs, "PAD", 3, Reversed, false);
  }

  lemma WaitRule()
    ensures AllWord("WAIT") && Claims("WAIT", Spaced(0xA4, Reversed), true)
  {
    forall t | "WAIT" <= t
      ensures Dispatch(t, 0) == Written(Apply(t, Spaced(0xA4, Reversed)), true)
    {
      Rule18(t);
      Chosen(t, 18, Spaced(0xA4, Reversed), true);
    }
  }

  lemma WaitBack(bs: seq<Byte>)
    requires 3 <= |bs| && bs[0] == 0xA4
    ensures ReadsBack(bs, Unit(Control(Listed("WAIT", Arrange(bs[1..3], Reversed)), true), 3))
  {
    WaitRule();
    ListedClaimed(bs, "WAIT", 3, Reversed, true);
  }

  lemma CloseRule()
    ensures AllWord("CLOSE") && Claims("CLOSE", Spaced(0xA9, Reversed), false)
  {
    forall t | "CLOSE" <= t
      ensures Dispatch(t, 0) == Written(Apply(t, Spaced(0xA9, Reversed)), false)
    {
      Rule19(t);
      Chosen(t, 19, Spaced(0xA9, Reversed), false);
    }
  }

  lemma CloseBack(bs: seq<Byte>)
    requires 6 <= |bs| && bs[0] == 0xA9
    ensures ReadsBack(bs, Unit(Control(Listed("CLOSE", Arrange(bs[1..6], Reversed)), false), 6))
  {
    CloseRule();
    ListedClaimed(bs, "CLOSE", 6, Reversed, false);
  }

  lemma ItemRule()
    ensures AllWord("ITEM") && Claims("ITEM", Spaced(0xD0, Reversed), false)
  {
    forall t | "ITEM" <= t
      ensures Dispatch(t, 0) == Written(Apply(t, Spaced(0xD0, Reversed)), false)
    {
      Rule21(t);
      Chosen(t, 21, Spaced(0xD0, Reversed), false);
    }
  }

  lemma ItemBack(bs: seq<Byte>)
    requires 5 <= |bs| && bs[0] == 0xD0
    ensures ReadsBack(bs, Unit(Control(Listed("ITEM", Arrange(bs[1..5], Reversed)), false), 5))
  {
    ItemRule();
    ListedClaimed(bs, "ITEM", 5, Reversed, false);
  }

  lemma ColorRule()
    ensures AllWord("COLOR") && Claims("COLOR", Color, false)
  {
    forall t | "COLOR" <= t
      ensures Dispatch(t, 0) == Written(Apply(t, Color), false)
    {
      Rule6(t);
      Chosen(t, 6, Color, false);
    }
  }

  lemma ColorCodeBack(bs: seq<Byte>)
    requires 2 <= |bs| && bs[0] == 0x89
    ensures ReadsBack(bs, Unit(Control(Listed("COLOR", Arrange(bs[1..2], InOrder)), false), 2))
  {
    ColorRule();
    ListedDispatch("COLOR", bs[1..2], Color, false);
    ColorBack(bs, "COLOR");
  }

  /** A keyed text starts with its name. */
  lemma NameStarts(name: string, fs: seq<Field>)
    ensures name <= TagText(Tag.Keyed(name, fs))
  {
  }

  /** A window text starts with its name and the one-byte field `T`. */
  lemma WindowStarts(name: string, fs: seq<Field>, b: Byte)
    requires fs != [] && fs[0] == Field("T", [b])
    ensures name + " T=" + Hex2(b) <= TagText(Tag.Keyed(name, fs))
  {
    KeyedHead(name, fs, b);
    assert name + " " + "T" + "=" + Hex2(b) == name + " T=" + Hex2(b);
  }

  lemma MainOne8C()
    ensures "WIN_MAIN_1" + " T=" + Hex2(0x8C) == "WIN_MAIN_1 T=8C"
  {
    assert Hex2(0x8C) == "8C";
  }

  lemma MainOne94()
    ensures "WIN_MAIN_1" + " T=" + Hex2(0x94) == "WIN_MAIN_1 T=94"
  {
    assert Hex2(0x94) == "94";
  }

  lemma MenuRule()
    ensures NoEquals("MENU") && Claims("MENU", Action.Keyed(0x8C), true)
  {
    forall t | "MENU" <= t
      ensures Dispatch(t, 0) == Written(Apply(t, Action.Keyed(0x8C)), true)
    {
      Rule3(t);
      Chosen(t, 3, Action.Keyed(0x8C), true);
    }
  }

  lemma Window8CRule()
    ensures NoEquals("WIN_MAIN_1") && Claims("WIN_MAIN_1" + " T=" + Hex2(0x8C), Action.Keyed(0xA1), true)
  {
    MainOne8C();
    forall t | "WIN_MAIN_1 T=8C" <= t
      ensures Dispatch(t, 0) == Written(Apply(t, Action.Keyed(0xA1)), true)
    {
      Rule15(t);
      Chosen(t, 15, Action.Keyed(0xA1), true);
    }
  }

  lemma Window94Rule()
    ensures NoEquals("WIN_MAIN_1") && Claims("WIN_MAIN_1" + " T=" + Hex2(0x94), Action.Keyed(0xA1), true)
  {
    MainOne94();
    forall t | "WIN_MAIN_1 T=94" <= t
      ensures Dispatch(t, 0) == Written(Apply(t, Action.Keyed(0xA1)), true)
    {
      Rule16(t);
      Chosen(t, 16, Action.Keyed(0xA1), true);
    }
  }

  lemma Window2Rule()
    ensures NoEquals("WIN_MAIN_2") && Claims("WIN_MAIN_2", Action.Keyed(0xA2), true)
  {
    forall t | "WIN_MAIN_2" <= t
      ensures Dispatch(t, 0) == Written(Apply(t, Action.Keyed(0xA2)), true)
    {
      Rule17(t);
      Chosen(t, 17, Action.Keyed(0xA2), true);
    }
  }

  lemma MenuBack(bs: seq<Byte>)
    requires Span(MENU_LAYOUT) <= |bs| && bs[0] == 0x8C
    ensures ReadsBack(bs, Unit(Control(Tag.Keyed("MENU", Cut(MENU_LAYOUT, bs[1..Span(MENU_LAYOUT)])), true), Span(MENU_LAYOUT)))
  {
    LayoutsWellFormed();
    MenuRule();
    KeyedBack(bs, "MENU", MENU_LAYOUT, true);
  }

  lemma Window8CBack(bs: seq<Byte>)
    requires Span(WINDOW_LAYOUT) <= |bs| && bs[0] == 0xA1 && bs[1] == 0x8C
    ensures ReadsBack(bs, Unit(Control(Tag.Keyed("WIN_MAIN_1", Cut(WINDOW_LAYOUT, bs[1..Span(WINDOW_LAYOUT)])), true), Span(WINDOW_LAYOUT)))
  {
    LayoutsWellFormed();
    Window8CRule();
    CutHead(WINDOW_LAYOUT, bs[1..Span(WINDOW_LAYOUT)]);
    WindowBack(bs, "WIN_MAIN_1", WINDOW_LAYOUT, 0x8C);
  }

  lemma Window94Back(bs: seq<Byte>)
    requires Span(WINDOW_94_LAYOUT) <= |bs| && bs[0] == 0xA1 && bs[1] == 0x94
    ensures ReadsBack(bs, Unit(Control(Tag.Keyed("WIN_MAIN_1", Cut(WINDOW_94_LAYOUT, bs[1..Span(WINDOW_94_LAYOUT)])), true), Span(WINDOW_94_LAYOUT)))
  {
    LayoutsWellFormed();
    Window94Rule();
    CutHead(WINDOW_94_LAYOUT, bs[1..Span(WINDOW_94_LAYOUT)]);
    WindowBack(bs, "WIN_MAIN_1", WINDOW_94_LAYOUT, 0x94);
  }

  lemma Window2Back(bs: seq<Byte>)
    requires Span(WINDOW_LAYOUT) <= |bs| && bs[0] == 0xA2
    ensures ReadsBack(bs, Unit(Control(Tag.Keyed("WIN_MAIN_2", Cut(WINDOW_LAYOUT, bs[1..Span(WINDOW_LAYOUT)])), true), Span(WINDOW_LAYOUT)))
  {
    LayoutsWellFormed();
    Window2Rule();
    KeyedBack(bs, "WIN_MAIN_2", WINDOW_LAYOUT, true);
  }

  lemma ZaireBack(bs: seq<Byte>)
    requires PriceFollows(bs) && bs[0] == 0xBA
    ensures ReadsBack(bs, Unit(Control(Bare("PRICE_ZAIRE"), false), 7))
  {
    Rule20("PRICE_ZAIRE");
    Chosen("PRICE_ZAIRE", 20, Price(0xBA), false);
    LongNotAToken("PRICE_ZAIRE");
    PriceApply("PRICE_ZAIRE", bs);
  }

  lemma ZennyBack(bs: seq<Byte>)
    requires PriceFollows(bs) && bs[0] == 0xD3
    ensures ReadsBack(bs, Unit(Control(Bare("PRICE_ZENNY"), false), 7))
  {
    Rule22("PRICE_ZENNY");
    Chosen("PRICE_ZENNY", 22, Price(0xD3), false);
    LongNotAToken("PRICE_ZENNY");
    PriceApply("PRICE_ZENNY", bs);
  }

  lemma RawCodeBack(bs: seq<Byte>)
    requires bs != []
    ensures ReadsBack(bs, Unit(Control(Raw(bs[0]), false), 1))
  {
    RawBack(bs[0]);
    assert bs[..1] == [bs[0]];
  }

  /** The control codes below 0xA0 read back as the bytes they were decoded from. */
  lemma LowControlBack(bs: seq<Byte>)
    requires bs != [] && CharTable(bs[0]).None? && bs[0] < 0xA0 && Step(bs).Ok?
    ensures ReadsBack(bs, Step(bs).value)
  {
    var op := bs[0];
    if op == 0x8B {
      assert Step(bs) == Ok(Unit(Control(Listed("PAUSE", Arrange(bs[1..3], Reversed)), true), 3));
      PauseBack(bs);
    } else if op == 0x8A && 7 <= |bs| && bs[6] == 0xFF {
      assert Step(bs) == Ok(Unit(Control(Listed("UNK1", Arrange(bs[1..7], InOrder)), true), 7));
      Unk1Back(bs);
    } else if op == 0x8A {
      assert Step(bs) == Ok(Unit(Control(Listed("UNK2", Arrange(bs[1..3], InOrder)), false), 3));
      Unk2Back(bs);
    } else if op == 0x8C {
      assert Step(bs) == Ok(Unit(Control(Tag.Keyed("MENU", Cut(MENU_LAYOUT, bs[1..Span(MENU_LAYOUT)])), true), Span(MENU_LAYOUT)));
      MenuBack(bs);
    } else if op == 0x8E {
      assert Step(bs) == Ok(Unit(Control(Listed("UNK3", Arrange(bs[1..3], InOrder)), false), 3));
      Unk3Back(bs);
    } else if op == 0x8F {
      assert Step(bs) == Ok(Unit(Control(Listed("AUDIO", Arrange(bs[1..5], Reversed)), true), 5));
      AudioBack(bs);
    } else if op == 0x89 {
      assert Step(bs) == Ok(Unit(Control(Listed("COLOR", Arrange(bs[1..2], InOrder)), false), 2));
      ColorCodeBack(bs);
    } else if op == 0x93 {
      assert Step(bs) == Ok(Unit(Control(Listed("UNK4", Arrange(bs[1..3], InOrder)), false), 3));
      Unk4Back(bs);
    } else if op == 0x96 {
      assert Step(bs) == Ok(Unit(Control(Listed("SEL", Arrange(bs[1..3], InOrder)), false), 3));
      SelBack(bs);
    } else if op == 0x99 {
      assert Step(bs) == Ok(Unit(Control(Listed("JMP", Arrange(bs[1..3], InOrder)), false), 3));
      JmpBack(bs);
    } else if op == 0x9A {
      assert Step(bs) == Ok(Unit(Control(Listed("UNK5", Arrange(bs[1..3], Reversed)), false), 3));
      Unk5Back(bs);
    } else if op == 0x9B {
      assert Step(bs) == Ok(Unit(Control(Listed("UNK6", Arrange(bs[1..3], Reversed)), false), 3));
      Unk6Back(bs);
    } else if op == 0x9C {
      assert Step(bs) == Ok(Unit(Control(Listed("MSG_ID", Arrange(bs[1..3], Reversed)), false), 3));
      MsgIdBack(bs);
    } else if op == 0x9F {
      assert Step(bs) == Ok(Unit(Control(Listed("WIN_SUB", Arrange(bs[1..4], Reversed)), true), 4));
      WinSubBack(bs);
    } else {
      assert Step(bs) == Ok(Unit(Control(Raw(bs[0]), false), 1));
      RawCodeBack(bs);
    }
  }

  /** The scan picks the window codes by their first two bytes. */
  lemma Window8CStep(bs: seq<Byte>)
    requires 2 <= |bs| && bs[0] == 0xA1 && bs[1] == 0x8C
    ensures Step(bs) == KeyedCode(bs, "WIN_MAIN_1", WINDOW_LAYOUT, true)
  {
  }

  lemma Window94Step(bs: seq<Byte>)
    requires 2 <= |bs| && bs[0] == 0xA1 && bs[1] == 0x94
    ensures Step(bs) == KeyedCode(bs, "WIN_MAIN_1", WINDOW_94_LAYOUT, true)
  {
  }

  lemma Window2Step(bs: seq<Byte>)
    requires 2 <= |bs| && bs[0] == 0xA2 && bs[1] == 0x94
    ensures Step(bs) == KeyedCode(bs, "WIN_MAIN_2", WINDOW_LAYOUT, true)
  {
  }

  lemma Window8CControlBack(bs: seq<Byte>)
    requires 2 <= |bs| && bs[0] == 0xA1 && bs[1] == 0x8C && Step(bs).Ok?
    ensures ReadsBack(bs, Step(bs).value)
  {
    Window8CStep(bs);
    Window8CBack(bs);
  }

  lemma Window94ControlBack(bs: seq<Byte>)
    requires 2 <= |bs| && bs[0] == 0xA1 && bs[1] == 0x94 && Step(bs).Ok?
    ensures ReadsBack(bs, Step(bs).value)
  {
    Window94Step(bs);
    Window94Back(bs);
  }

  lemma Window2ControlBack(bs: seq<Byte>)
    requires 2 <= |bs| && bs[0] == 0xA2 && bs[1] == 0x94 && Step(bs).Ok?
    ensures ReadsBack(bs, Step(bs).value)
  {
    Window2Step(bs);
    Window2Back(bs);
  }

  /** The control codes from 0xA0 up read back as the bytes they were decoded from. */
  lemma HighControlBack(bs: seq<Byte>)
    requires bs != [] && CharTable(bs[0]).None? && bs[0] >= 0xA0 && Step(bs).Ok?
    ensures ReadsBack(bs, Step(bs).value)
  {
    var op := bs[0];
    if op == 0xA0 {
      assert Step(bs) == Ok(Unit(Control(Listed("PAD", Arrange(bs[1..3], Reversed)), false), 3));
      PadBack(bs);
    } else if op == 0xA1 && 2 <= |bs| && bs[1] == 0x8C {
      Window8CControlBack(bs);
    } else if op == 0xA1 && 2 <= |bs| && bs[1] == 0x94 {
      Window94ControlBack(bs);
    } else if op == 0xA2 && 2 <= |bs| && bs[1] == 0x94 {
      Window2ControlBack(bs);
    } else if op == 0xA4 {
      assert Step(bs) == Ok(Unit(Control(Listed("WAIT", Arrange(bs[1..3], Reversed)), true), 3));
      WaitBack(bs);
    } else if op == 0xA9 {
      assert Step(bs) == Ok(Unit(Control(Listed("CLOSE", Arrange(bs[1..6], Reversed)), false), 6));
      CloseBack(bs);
    } else if op == 0xBA && PriceFollows(bs) {
      assert Step(bs) == Ok(Unit(Control(Bare("PRICE_ZAIRE"), false), 7));
      ZaireBack(bs);
    } else if op == 0xD0 {
      assert Step(bs) == Ok(Unit(Control(Listed("ITEM", Arrange(bs[1..5], Reversed)), false), 5));
      ItemBack(bs);
    } else if op == 0xD3 && PriceFollows(bs) {
      assert Step(bs) == Ok(Unit(Control(Bare("PRICE_ZENNY"), false), 7));
      ZennyBack(bs);
    } else {
      assert Step(bs) == Ok(Unit(Control(Raw(bs[0]), false), 1));
      RawCodeBack(bs);
    }
  }

  /** Every control code the decoder prints reads back as the bytes it was decoded from. */
  lemma ControlBack(bs: seq<Byte>)
    requires bs != [] && CharTable(bs[0]).None? && Step(bs).Ok?
    ensures ReadsBack(bs, Step(bs).value)
  {
    if bs[0] < 0xA0 {
      LowControlBack(bs);
    } else {
      HighControlBack(bs);
    }
  }

  /** The keys of a keyed code are those of its layout. */
  lemma KeyedPlain(bs: seq<Byte>, name: string, layout: Layout, newline: bool)
    requires bs != [] && Plain(name) && KeyedCode(bs, name, layout, newline).Ok?
    requires forall i :: 0 <= i < |layout| ==> Plain(layout[i].0)
    ensures KeyedCode(bs, name, layout, newline).value.piece.Control?
    ensures PlainTag(KeyedCode(bs, name, layout, newline).value.piece.tag)
  {
    CutKeys(layout, bs[1..Span(layout)]);
  }

  /** The names of the listed control codes below 0xA0 are words. */
  lemma LowNames()
    ensures AllWord("PAUSE") && AllWord("UNK1") && AllWord("UNK2") && AllWord("UNK3") && AllWord("AUDIO")
    ensures AllWord("COLOR") && AllWord("UNK4") && AllWord("SEL") && AllWord("JMP") && AllWord("UNK5")
    ensures AllWord("UNK6") && AllWord("MSG_ID") && AllWord("WIN_SUB")
  {
  }

  /** The names of the control codes from 0xA0 up are words. */
  lemma HighNames()
    ensures AllWord("PAD") && AllWord("WAIT") && AllWord("CLOSE") && AllWord("PRICE_ZAIRE")
    ensures AllWord("ITEM") && AllWord("PRICE_ZENNY")
    ensures Plain("MENU") && Plain("WIN_MAIN_1") && Plain("WIN_MAIN_2")
  {
  }

  /** Every control code the decoder prints has plain names and keys. */
  lemma StepPlain(bs: seq<Byte>)
    requires bs != [] && CharTable(bs[0]).None? && Step(bs).Ok?
    ensures Step(bs).value.piece.Control? && PlainTag(Step(bs).value.piece.tag)
  {
    if bs[0] < 0xA0 {
      LowPlain(bs);
    } else {
      HighPlain(bs);
    }
  }

  lemma LowPlain(bs: seq<Byte>)
    requires bs != [] && CharTable(bs[0]).None? && bs[0] < 0xA0 && Step(bs).Ok?
    ensures Step(bs).value.piece.Control? && PlainTag(Step(bs).value.piece.tag)
  {
    LowNames();
    HighNames();
    if bs[0] == 0x8C {
      LayoutsOpen();
      KeyedPlain(bs, "MENU", MENU_LAYOUT, true);
    }
  }

  lemma HighPlain(bs: seq<Byte>)
    requires bs != [] && CharTable(bs[0]).None? && bs[0] >= 0xA0 && Step(bs).Ok?
    ensures Step(bs).value.piece.Control? && PlainTag(Step(bs).value.piece.tag)
  {
    HighNames();
    var op := bs[0];
    if op == 0xA1 && 2 <= |bs| && bs[1] == 0x8C {
      Window8CStep(bs);
      LayoutsOpen();
      KeyedPlain(bs, "WIN_MAIN_1", WINDOW_LAYOUT, true);
    } else if op == 0xA1 && 2 <= |bs| && bs[1] == 0x94 {
      Window94Step(bs);
      LayoutsOpen();
      KeyedPlain(bs, "WIN_MAIN_1", WINDOW_94_LAYOUT, true);
    } else if op == 0xA2 && 2 <= |bs| && bs[1] == 0x94 {
      Window2Step(bs);
      LayoutsOpen();
      KeyedPlain(bs, "WIN_MAIN_2", WINDOW_LAYOUT, true);
    }
  }

  /** A tag without '>' in brackets encodes as its rule says and consumes the brackets and the line break the rule skips. */
  lemma TagUnitBack(s: string, tt: string, tail: string, e: Encoded, w: nat)
    requires s == "<" + tt + ">" + tail && w == Width(tt, e)
    requires '>' !in tt && EncodeTag(tt) == Ok(e)
    ensures EncodeUnit(s) == Ok(Chunk(e.bytes, w))
  {
    assert s[|tt| + 1] == '>';
    assert forall k :: 1 <= k < |tt| + 1 ==> s[k] == tt[k - 1];
    assert Find(s, '>', 1) == |tt| + 1;
    assert s[1..|tt| + 1] == tt;
    UnitOfTag(s, tt);
  }

  /** A glyph of the character table, followed by anything, encodes as its one byte. */
  lemma LetterBack(b: Byte, rest: string)
    requires CharTable(b).Some?
    ensures EncodeUnit(Text(CharTable(b).value) + rest) == Ok(Chunk([b], |Text(CharTable(b).value)|))
  {
    InverseOfTable(b);
    match CharTable(b).value
    case Char(c) =>
      assert CharCode('<').None?;
      assert (Text(CharTable(b).value) + rest)[0] == c;
    case Tok(t) =>
      var name := TokenName(t);
      TokenNameHasNoClose(t);
      assert Inverse("<" + name + ">") == Some(b);
      assert EncodeTag(name) == Ok(Encoded([b], false));
      TagUnitBack(Text(Tok(t)) + rest, name, rest, Encoded([b], false), |Text(Tok(t))|);
  }

  lemma TokenNameHasNoClose(t: Token)
    ensures '>' !in TokenName(t)
  {
  }

  /** The first unit the decoder reads from `bs`, printed and followed by any text, encodes back to the bytes it was read from. */
  lemma UnitBack(bs: seq<Byte>, rest: string)
    requires bs != [] && Step(bs).Ok?
    ensures EncodeUnit(PieceText(Step(bs).value.piece) + rest)
      == Ok(Chunk(bs[..Step(bs).value.width], |PieceText(Step(bs).value.piece)|))
  {
    if CharTable(bs[0]).Some? {
      LetterUnitBack(bs, rest);
    } else {
      ControlBack(bs);
      StepPlain(bs);
      TagOpen(Step(bs).value.piece.tag);
      ControlUnitBack(bs, Step(bs).value, rest);
    }
  }

  lemma LetterUnitBack(bs: seq<Byte>, rest: string)
    requires bs != [] && CharTable(bs[0]).Some?
    ensures Step(bs) == Ok(Unit(Letter(CharTable(bs[0]).value), 1))
    ensures EncodeUnit(Text(CharTable(bs[0]).value) + rest) == Ok(Chunk(bs[..1], |Text(CharTable(bs[0]).value)|))
  {
    assert bs[..1] == [bs[0]];
    LetterBack(bs[0], rest);
  }

  lemma ControlUnitBack(bs: seq<Byte>, u: Unit, rest: string)
    requires u.piece.Control? && ReadsBack(bs, u) && '>' !in TagText(u.piece.tag)
    ensures EncodeUnit(PieceText(u.piece) + rest) == Ok(Chunk(bs[..u.width], |PieceText(u.piece)|))
  {
    var e := Encoded(bs[..u.width], u.piece.newline);
    var nl := if u.piece.newline then "\n" else "";
    ControlText(u.piece, rest);
    TagUnitBack(PieceText(u.piece) + rest, TagText(u.piece.tag), nl + rest, e, |PieceText(u.piece)|);
  }

  lemma ControlText(p: Piece, rest: string)
    requires p.Control?
    ensures PieceText(p) + rest == "<" + TagText(p.tag) + ">" + ((if p.newline then "\n" else "") + rest)
    ensures |PieceText(p)| == |TagText(p.tag)| + 2 + if p.newline then 1 else 0
  {
  }

  /**
   * The round trip of the codec: every block `do_decode_block` turns into
   * text is turned back into the same bytes by `do_encode_text_block`.
   */
  lemma {:induction false} EncodeDecode(bs: seq<Byte>)
    requires Decoding(bs).Ok?
    ensures Encoding(Decoding(bs).value) == Ok(bs)
    decreases |bs|
  {
    if bs != [] {
      DecodingUnfolds(bs);
      var u := Step(bs).value;
      var rest := Decoding(bs[u.width..]).value;
      EncodeDecode(bs[u.width..]);
      UnitBack(bs, rest);
      PieceTextNonEmpty(u.piece);
      var text := PieceText(u.piece);
      assert (text + rest)[|text|..] == rest;
      JoinBack(bs, u.width, text + rest, |text|, rest);
    }
  }

  lemma PieceTextNonEmpty(p: Piece)
    ensures PieceText(p) != []
  {
  }

  /** A unit that encodes back to the first `w` bytes, followed by a text that encodes to the rest. */
  lemma JoinBack(bs: seq<Byte>, w: nat, s: string, n: nat, rest: string)
    requires w <= |bs| && s != [] && n <= |s| && s[n..] == rest
    requires EncodeUnit(s) == Ok(Chunk(bs[..w], n)) && Encoding(rest) == Ok(bs[w..])
    ensures Encoding(s) == Ok(bs)
  {
    EncodingUnfolds(s);
    assert Rest(s, n) == rest;
    Halves(bs, w);
  }

  lemma Halves<T>(xs: seq<T>, w: nat)
    requires w <= |xs|
    ensures xs[..w] + xs[w..] == xs
  {
  }
}
