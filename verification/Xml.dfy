/**
 The XML layer: documents, their text, the events an XML processor reports for a text, and the
 element trees that xmlrpc_expat.c builds from events.

 The lexer stands in for Expat. It follows XML 1.0 for the fragment the serializer writes: tags
 without attributes, empty-element tags, processing instructions, character data with the
 predefined entities (section 4.6), end-of-line normalisation (section 2.11), and the refusal of
 text that is not UTF-8 (section 4.3.3) or has a character outside production [2].
 */
module Xml {
  import opened Bytes
  import Utf8

  const LT: byte := 60     // <
  const GT: byte := 62     // >
  const AMP: byte := 38    // &
  const SLASH: byte := 47  // /
  const QUERY: byte := 63  // ?

  // ---------------------------------------------------------------- names

  predicate IsLetter(b: byte) { 65 <= b <= 90 || 97 <= b <= 122 }

  predicate IsNameByte(b: byte)
  {
    IsLetter(b) || 48 <= b <= 57 || b in {45, 46, 95}
  }

  predicate IsNameText(bs: seq<byte>)
  {
    bs != [] && IsLetter(bs[0]) && forall k | 0 <= k < |bs| :: IsNameByte(bs[k])
  }

  /** The bytes of an ASCII string. */
  function Ascii(name: string): (bs: seq<byte>)
    ensures |bs| == |name|
  {
    seq(|name|, k requires 0 <= k < |name| => name[k] as int % 256)
  }

  function NameString(bs: seq<byte>): (name: string)
    ensures |name| == |bs|
  {
    seq(|bs|, k requires 0 <= k < |bs| => bs[k] as char)
  }

  predicate IsNameChar(c: char)
  {
    'A' <= c <= 'Z' || 'a' <= c <= 'z' || '0' <= c <= '9' || c == '.' || c == '-' || c == '_'
  }

  predicate IsName(name: string)
  {
    name != "" && IsLetter(name[0] as int % 256) && forall k | 0 <= k < |name| :: IsNameChar(name[k])
  }

  lemma {:induction false} NameIsNameText(name: string)
    requires IsName(name)
    ensures IsNameText(Ascii(name))
  {
  }

  lemma {:induction false} NameRoundTrip(name: string)
    requires IsName(name)
    ensures NameString(Ascii(name)) == name
  {
    forall k | 0 <= k < |name|
      ensures NameString(Ascii(name))[k] == name[k]
    {
      assert IsNameChar(name[k]);
      assert Ascii(name)[k] == name[k] as int;
    }
  }

  // ---------------------------------------------------------------- documents and their text

  datatype Node =
    | Elem(name: string, content: seq<Node>)
    | SelfClosing(name: string)
    | Text(text: seq<byte>)

  function OpenTag(name: string): (s: seq<byte>)
    ensures |s| == |name| + 2
  {
    [LT] + Ascii(name) + [GT]
  }

  function CloseTag(name: string): (s: seq<byte>)
    ensures |s| == |name| + 3
  {
    [LT, SLASH] + Ascii(name) + [GT]
  }

  function EmptyTag(name: string): (s: seq<byte>)
    ensures |s| == |name| + 3
  {
    [LT] + Ascii(name) + [SLASH, GT]
  }

  function EscapeByte(b: byte): (s: seq<byte>)
    ensures 1 <= |s| <= 5
  {
    if b == LT then [AMP, 108, 116, 59]             // &lt;
    else if b == GT then [AMP, 103, 116, 59]        // &gt;
    else if b == AMP then [AMP, 97, 109, 112, 59]   // &amp;
    else [b]
  }

  function Escape(s: seq<byte>): seq<byte>
  {
    if s == [] then [] else EscapeByte(s[0]) + Escape(s[1..])
  }

  function Render(n: Node): seq<byte>
    decreases n, 1
  {
    match n
    case Elem(name, content) => OpenTag(name) + RenderAll(content) + CloseTag(name)
    case SelfClosing(name) => EmptyTag(name)
    case Text(text) => Escape(text)
  }

  function RenderAll(ns: seq<Node>): seq<byte>
    decreases ns, 0
  {
    if ns == [] then [] else Render(ns[0]) + RenderAll(ns[1..])
  }

  /** Names are names, and no two pieces of text are adjacent. */
  predicate WellNamed(n: Node)
    decreases n, 1
  {
    match n
    case Elem(name, content) => IsName(name) && AllWellNamed(content)
    case SelfClosing(name) => IsName(name)
    case Text(_) => true
  }

  predicate AllWellNamed(ns: seq<Node>)
    decreases ns, 0
  {
    ns != [] ==>
      WellNamed(ns[0]) && AllWellNamed(ns[1..]) && (ns[0].Text? && |ns| > 1 ==> !ns[1].Text?)
  }

  // ---------------------------------------------------------------- the lexer

  datatype Event =
    | StartElement(name: string)
    | EndElement(name: string)
    | CharacterData(text: seq<byte>)

  /** Text after the lexer has replaced CRLF and CR by LF. */
  function NormalizeEnds(s: seq<byte>): (t: seq<byte>)
    ensures CR !in t
  {
    if s == [] then []
    else if s[0] != CR then [s[0]] + NormalizeEnds(s[1..])
    else if |s| > 1 && s[1] == LF then NormalizeEnds(s[1..])
    else [LF] + NormalizeEnds(s[1..])
  }

  /** The characters below U+0020 that production [2] of XML 1.0 leaves out. */
  predicate IsControl(b: byte) { b < 32 && b != 9 && b != LF && b != CR }

  predicate HasNoControl(s: seq<byte>) { forall k | 0 <= k < |s| :: !IsControl(s[k]) }

  /** A character in UTF-8 (section 4 of RFC 3629), without U+FFFE and U+FFFF. */
  predicate XmlChar(s: seq<byte>)
  {
    || Utf8.Utf8Char(s)
    || (|s| == 4 && Utf8.IsTail(s[2]) && Utf8.IsTail(s[3])
        && (|| (s[0] == 0xF0 && 0x90 <= s[1] <= 0xBF)
            || (0xF1 <= s[0] <= 0xF3 && Utf8.IsTail(s[1]))
            || (s[0] == 0xF4 && 0x80 <= s[1] <= 0x8F)))
  }

  /** How many bytes a character starting with `b` takes. */
  function Span(b: byte): (n: nat)
    ensures 1 <= n <= 4
  {
    if b < 0x80 then 1 else if b < 0xE0 then 2 else if b < 0xF0 then 3 else 4
  }

  predicate Encoded(s: seq<byte>)
    decreases |s|
  {
    s == [] || (Span(s[0]) <= |s| && XmlChar(s[..Span(s[0])]) && Encoded(s[Span(s[0])..]))
  }

  /** What an XML processor lets through as text. */
  predicate IsText(s: seq<byte>) { HasNoControl(s) && Encoded(s) }

  predicate IsSpace(b: byte) { b in {32, 9, LF, CR} }

  function UpToGt(bs: seq<byte>): (n: nat)
    ensures n <= |bs|
    ensures n < |bs| ==> bs[n] == GT
  {
    if bs == [] || bs[0] == GT then 0 else 1 + UpToGt(bs[1..])
  }

  function Prepend(es: seq<Event>, r: Option<seq<Event>>): Option<seq<Event>>
  {
    match r case None => None case Some(rest) => Some(es + rest)
  }

  datatype Tag = OpenT(name: string) | CloseT(name: string) | EmptyT(name: string) | Instruction | BadTag

  /** What stands between `<` and `>`. */
  function Classify(tag: seq<byte>): Tag
  {
    if tag == [] then BadTag
    else if tag[0] == QUERY then (if |tag| > 1 && tag[|tag| - 1] == QUERY && IsText(tag) then Instruction else BadTag)
    else if tag[0] == SLASH then (if IsNameText(tag[1..]) then CloseT(NameString(tag[1..])) else BadTag)
    else if tag[|tag| - 1] == SLASH then
      (if IsNameText(tag[..|tag| - 1]) then EmptyT(NameString(tag[..|tag| - 1])) else BadTag)
    else if IsNameText(tag) then OpenT(NameString(tag)) else BadTag
  }

  /** The character a predefined entity stands for and the length of the reference. */
  function Entity(bs: seq<byte>): (byte, nat)
  {
    if [AMP, 108, 116, 59] <= bs then (LT, 4)
    else if [AMP, 103, 116, 59] <= bs then (GT, 4)
    else if [AMP, 97, 109, 112, 59] <= bs then (AMP, 5)
    else if [AMP, 113, 117, 111, 116, 59] <= bs then (34, 6)
    else if [AMP, 97, 112, 111, 115, 59] <= bs then (39, 6)
    else (0, 0)
  }

  /** The five entities of section 4.6 of XML 1.0. */
  lemma {:induction false} PredefinedEntities(rest: seq<byte>)
    ensures Entity(Ascii("&lt;") + rest) == ('<' as int, 4) && Entity(Ascii("&gt;") + rest) == ('>' as int, 4)
    ensures Entity(Ascii("&amp;") + rest) == ('&' as int, 5)
    ensures Entity(Ascii("&quot;") + rest) == ('"' as int, 6) && Entity(Ascii("&apos;") + rest) == ('\'' as int, 6)
  {
    assert [AMP, 108, 116, 59] <= Ascii("&lt;") + rest;
    assert (Ascii("&gt;") + rest)[1] == 103 && [AMP, 103, 116, 59] <= Ascii("&gt;") + rest;
    assert (Ascii("&amp;") + rest)[1] == 97 && [AMP, 97, 109, 112, 59] <= Ascii("&amp;") + rest;
    assert (Ascii("&quot;") + rest)[1] == 113 && [AMP, 113, 117, 111, 116, 59] <= Ascii("&quot;") + rest;
    assert (Ascii("&apos;") + rest)[2] == 112 && [AMP, 97, 112, 111, 115, 59] <= Ascii("&apos;") + rest;
  }

  /** One item of character data inside an element: its events and its length, 0 if ill-formed. */
  function LexChar(bs: seq<byte>): (r: (seq<Event>, nat))
    requires bs != [] && bs[0] != LT
    ensures r.1 <= |bs|
  {
    if bs[0] == AMP then
      var (c, n) := Entity(bs);
      ([CharacterData([c])], n)
    else if bs[0] == CR then
      if |bs| > 1 && bs[1] == LF then ([], 1) else ([CharacterData([LF])], 1)
    else
      var n := Span(bs[0]);
      if !IsControl(bs[0]) && n <= |bs| && XmlChar(bs[..n]) then ([CharacterData(bs[..n])], n) else ([], 0)
  }

  /** The events of a text, given the elements still open and whether the root was seen; None if
      the text is not well-formed. */
  function Lex(bs: seq<byte>, open: seq<string>, rooted: bool): Option<seq<Event>>
    decreases |bs|
  {
    if bs == [] then (if open == [] && rooted then Some([]) else None)
    else if bs[0] == LT then
      var n := UpToGt(bs[1..]);
      if n + 1 >= |bs| then None
      else
        var rest := bs[n + 2..];
        match Classify(bs[1..n + 1])
        case BadTag => None
        case Instruction => Lex(rest, open, rooted)
        case CloseT(name) =>
          if open == [] || open[|open| - 1] != name then None
          else Prepend([EndElement(name)], Lex(rest, open[..|open| - 1], rooted))
        case EmptyT(name) =>
          if open == [] && rooted then None
          else Prepend([StartElement(name), EndElement(name)], Lex(rest, open, true))
        case OpenT(name) =>
          if open == [] && rooted then None
          else Prepend([StartElement(name)], Lex(rest, open + [name], true))
    else if open == [] then
      if IsSpace(bs[0]) then Lex(bs[1..], open, rooted) else None
    else
      var (es, n) := LexChar(bs);
      if n == 0 then None else Prepend(es, Lex(bs[n..], open, rooted))
  }

  // ---------------------------------------------------------------- lexing a rendered document

  /** Text handed over one character at a time. */
  function CharEvents(s: seq<byte>): seq<Event>
    decreases |s|
  {
    if s == [] then []
    else
      var n := if Span(s[0]) <= |s| then Span(s[0]) else |s|;
      [CharacterData(s[..n])] + CharEvents(s[n..])
  }

  function Events(n: Node): seq<Event>
    decreases n, 1
  {
    match n
    case Elem(name, content) => [StartElement(name)] + AllEvents(content) + [EndElement(name)]
    case SelfClosing(name) => [StartElement(name), EndElement(name)]
    case Text(text) => CharEvents(NormalizeEnds(text))
  }

  function AllEvents(ns: seq<Node>): seq<Event>
    decreases ns, 0
  {
    if ns == [] then [] else Events(ns[0]) + AllEvents(ns[1..])
  }

  /** Every text in the document is text to an XML processor. */
  predicate Clean(n: Node)
    decreases n, 1
  {
    match n
    case Elem(_, content) => AllClean(content)
    case SelfClosing(_) => true
    case Text(text) => IsText(text)
  }

  predicate AllClean(ns: seq<Node>)
    decreases ns, 0
  {
    ns != [] ==> Clean(ns[0]) && AllClean(ns[1..])
  }

  lemma {:induction false} UpToGtSkips(s: seq<byte>, rest: seq<byte>)
    requires GT !in s
    ensures UpToGt(s + [GT] + rest) == |s|
  {
    var whole := s + [GT] + rest;
    if s != [] {
      assert whole[1..] == s[1..] + [GT] + rest;
      UpToGtSkips(s[1..], rest);
    }
  }

  /** A tag at the front of the text. */
  lemma {:induction false} LexTag(tag: seq<byte>, rest: seq<byte>, open: seq<string>, rooted: bool)
    requires GT !in tag
    ensures var text := [LT] + tag + [GT] + rest;
            && UpToGt(text[1..]) == |tag| && text[1..|tag| + 1] == tag && text[|tag| + 2..] == rest
  {
    var text := [LT] + tag + [GT] + rest;
    assert text[1..] == tag + [GT] + rest;
    UpToGtSkips(tag, rest);
  }

  lemma {:induction false} NameHasNoMarkup(name: string)
    requires IsName(name)
    ensures GT !in Ascii(name) && SLASH !in Ascii(name) && Ascii(name)[0] != QUERY
  {
    NameIsNameText(name);
  }

  lemma {:induction false} ClassifyTags(name: string)
    requires IsName(name)
    ensures Classify(Ascii(name)) == OpenT(name)
    ensures Classify([SLASH] + Ascii(name)) == CloseT(name)
    ensures Classify(Ascii(name) + [SLASH]) == EmptyT(name)
  {
    NameHasNoMarkup(name);
    NameIsNameText(name);
    NameRoundTrip(name);
    assert ([SLASH] + Ascii(name))[1..] == Ascii(name);
    assert (Ascii(name) + [SLASH])[..|name|] == Ascii(name);
  }

  lemma {:induction false} LexOpen(name: string, rest: seq<byte>, open: seq<string>, rooted: bool)
    requires IsName(name) && (open != [] || !rooted)
    ensures Lex(OpenTag(name) + rest, open, rooted) == Prepend([StartElement(name)], Lex(rest, open + [name], true))
  {
    hide IsName, Classify, Ascii;
    NameHasNoMarkup(name);
    LexTag(Ascii(name), rest, open, rooted);
    ClassifyTags(name);
  }

  lemma {:induction false} LexClose(name: string, rest: seq<byte>, open: seq<string>)
    requires IsName(name)
    ensures Lex(CloseTag(name) + rest, open + [name], true) == Prepend([EndElement(name)], Lex(rest, open, true))
  {
    hide IsName, Classify, Ascii;
    NameHasNoMarkup(name);
    var tag := [SLASH] + Ascii(name);
    assert CloseTag(name) + rest == [LT] + tag + [GT] + rest;
    LexTag(tag, rest, open + [name], true);
    ClassifyTags(name);
    assert (open + [name])[..|open|] == open;
  }

  lemma {:induction false} LexEmpty(name: string, rest: seq<byte>, open: seq<string>, rooted: bool)
    requires IsName(name) && (open != [] || !rooted)
    ensures Lex(EmptyTag(name) + rest, open, rooted)
         == Prepend([StartElement(name), EndElement(name)], Lex(rest, open, true))
  {
    hide IsName, Classify, Ascii;
    NameHasNoMarkup(name);
    var tag := Ascii(name) + [SLASH];
    assert EmptyTag(name) + rest == [LT] + tag + [GT] + rest;
    LexTag(tag, rest, open, rooted);
    ClassifyTags(name);
  }

  lemma {:induction false} LexEscaped(b: byte, rest: seq<byte>)
    requires b < 0x80 && (b != CR || rest == [] || rest[0] != LF)
    ensures LexChar(EscapeByte(b) + rest)
         == if IsControl(b) then ([], 0)
            else ([CharacterData([if b == CR then LF else b])], |EscapeByte(b)|)
  {
    var t := EscapeByte(b) + rest;
    if b == LT {
      assert [AMP, 108, 116, 59] <= t;
    } else if b == GT {
      assert t[1] == 103;
      assert [AMP, 103, 116, 59] <= t;
    } else if b == AMP {
      assert t[1] == 97;
      assert [AMP, 97, 109, 112, 59] <= t;
    } else {
      assert t[..1] == [b];
    }
  }

  // text beyond ASCII

  lemma {:induction false} CharIsHigh(c: seq<byte>)
    requires XmlChar(c)
    ensures |c| == Span(c[0]) && (c[0] >= 0x80 ==> forall k | 0 <= k < |c| :: c[k] >= 0x80)
  {
  }

  lemma {:induction false} HighFirst(s: seq<byte>)
    requires s != [] && s[0] >= 0x80
    ensures Escape(s) == [s[0]] + Escape(s[1..])
    ensures NormalizeEnds(s) == [s[0]] + NormalizeEnds(s[1..])
    ensures HasNoControl(s) <==> HasNoControl(s[1..])
  {
    hide HasNoControl;
    NoControlFirst(s);
  }

  /** Neither escaping nor line ends touch bytes beyond ASCII. */
  lemma {:induction false} HighUnchanged(s: seq<byte>, n: nat)
    requires n <= |s| && forall k | 0 <= k < n :: s[k] >= 0x80
    ensures Escape(s) == s[..n] + Escape(s[n..])
    ensures NormalizeEnds(s) == s[..n] + NormalizeEnds(s[n..])
    ensures HasNoControl(s) <==> HasNoControl(s[n..])
  {
    hide Escape, NormalizeEnds, HasNoControl;
    if n > 0 {
      HighFirst(s);
      HighUnchanged(s[1..], n - 1);
      assert s[1..][n - 1..] == s[n..];
      assert s[..n] == [s[0]] + s[1..][..n - 1];
    } else {
      assert s[0..] == s;
    }
  }

  lemma {:induction false} NoControlFirst(s: seq<byte>)
    requires s != []
    ensures HasNoControl(s) <==> !IsControl(s[0]) && HasNoControl(s[1..])
  {
    hide IsControl;
    if !IsControl(s[0]) && HasNoControl(s[1..]) {
      forall k | 0 <= k < |s| ensures !IsControl(s[k]) {
        assert k > 0 ==> s[k] == s[1..][k - 1];
      }
    }
  }

  /** Bytes beyond ASCII in front of the escaped text come from the text itself. */
  lemma {:induction false} HighComesFrom(s: seq<byte>, rest: seq<byte>, n: nat)
    requires rest != [] && rest[0] == LT
    requires n <= |Escape(s) + rest| && forall k | 0 <= k < n :: (Escape(s) + rest)[k] >= 0x80
    ensures n <= |s| && s[..n] == (Escape(s) + rest)[..n]
  {
    if n > 0 {
      var text := Escape(s) + rest;
      assert s != [] by { assert text[0] >= 0x80; }
      assert text[0] == EscapeByte(s[0])[0];
      assert text == [s[0]] + (Escape(s[1..]) + rest);
      forall k | 0 <= k < n - 1 ensures (Escape(s[1..]) + rest)[k] >= 0x80 {
        assert text[k + 1] >= 0x80;
      }
      HighComesFrom(s[1..], rest, n - 1);
      assert s[..n] == [s[0]] + s[1..][..n - 1];
    }
  }

  lemma {:induction false} AsciiIsText(s: seq<byte>)
    requires forall k | 0 <= k < |s| :: s[k] < 0x80 && !IsControl(s[k])
    ensures IsText(s)
  {
    if s != [] {
      AsciiIsText(s[1..]);
      EncodedFirst(s);
    }
  }

  lemma {:induction false} EncodedFirst(s: seq<byte>)
    requires s != []
    ensures s[0] < 0x80 ==> (Encoded(s) <==> Encoded(s[1..]))
    ensures s[0] >= 0x80 ==> (Encoded(s) <==> Span(s[0]) <= |s| && XmlChar(s[..Span(s[0])]) && Encoded(s[Span(s[0])..]))
  {
  }

  lemma {:induction false} CharFirst(c: seq<byte>, rest: seq<byte>)
    requires XmlChar(c)
    ensures CharEvents(c + rest) == [CharacterData(c)] + CharEvents(rest)
  {
    CharIsHigh(c);
    assert (c + rest)[..|c|] == c && (c + rest)[|c|..] == rest;
  }

  /** A character beyond ASCII, or what is not one, at the front of a text. */
  lemma {:induction false} LexHigh(s: seq<byte>, rest: seq<byte>, open: seq<string>)
    requires open != [] && rest != [] && rest[0] == LT && s != [] && s[0] >= 0x80
    ensures var n, text := Span(s[0]), Escape(s) + rest;
            if n <= |s| && XmlChar(s[..n])
            then && Lex(text, open, true) == Prepend([CharacterData(s[..n])], Lex(Escape(s[n..]) + rest, open, true))
                 && CharEvents(NormalizeEnds(s)) == [CharacterData(s[..n])] + CharEvents(NormalizeEnds(s[n..]))
                 && (IsText(s) <==> IsText(s[n..]))
            else Lex(text, open, true) == None && !IsText(s)
  {
    hide XmlChar, IsControl, Escape, NormalizeEnds, Lex, HasNoControl, Span;
    var n, text := Span(s[0]), Escape(s) + rest;
    HighUnchanged(s, 1);
    assert text[0] == s[0];
    LexOneChar(text, open);
    EncodedFirst(s);
    if n <= |s| && XmlChar(s[..n]) {
      CharIsHigh(s[..n]);
      HighUnchanged(s, n);
      assert text[..n] == s[..n] && text[n..] == Escape(s[n..]) + rest;
      CharFirst(s[..n], NormalizeEnds(s[n..]));
      assert !IsControl(s[0]) by { NotControl(s[0]); }
    } else if n <= |text| && XmlChar(text[..n]) {
      CharIsHigh(text[..n]);
      forall k | 0 <= k < n ensures text[k] >= 0x80 { assert text[k] == text[..n][k]; }
      HighComesFrom(s, rest, n);
    }
  }

  lemma {:induction false} NotControl(b: byte)
    requires b >= 0x80
    ensures !IsControl(b)
  {
  }

  lemma {:induction false} PrependNothing(r: Option<seq<Event>>)
    ensures Prepend([], r) == r
  {
    if r.Some? {
      assert [] + r.value == r.value;
    }
  }

  lemma {:induction false} LexOneChar(text: seq<byte>, open: seq<string>)
    requires open != [] && text != [] && text[0] != LT
    ensures Lex(text, open, true)
         == if LexChar(text).1 == 0 then None
            else Prepend(LexChar(text).0, Lex(text[LexChar(text).1..], open, true))
  {
    hide LexChar;
  }

  lemma {:induction false} PrependTwice(a: seq<Event>, b: seq<Event>, r: Option<seq<Event>>)
    ensures Prepend(a, Prepend(b, r)) == Prepend(a + b, r)
  {
    if r.Some? {
      assert a + (b + r.value) == a + b + r.value;
    }
  }

  lemma {:induction false} EscapeStart(s: seq<byte>)
    requires s != []
    ensures Escape(s) != [] && Escape(s)[0] != LT && (Escape(s)[0] == LF <==> s[0] == LF)
  {
  }

  /** Escaped text lexes to its own characters, line ends normalised, unless it is not UTF-8 or has a
      control character; then the document is not well-formed. */
  lemma {:induction false} LexText(s: seq<byte>, rest: seq<byte>, open: seq<string>)
    requires open != [] && rest != [] && rest[0] == LT
    ensures Lex(Escape(s) + rest, open, true)
         == if IsText(s) then Prepend(CharEvents(NormalizeEnds(s)), Lex(rest, open, true)) else None
    decreases |s|
  {
    hide EscapeByte, LexChar, IsControl, Lex, Prepend, Span, XmlChar;
    if s == [] {
      assert Escape(s) + rest == rest;
      assert CharEvents([]) == [];
      PrependNothing(Lex(rest, open, true));
    } else if s[0] >= 0x80 {
      LexHigh(s, rest, open);
      var n := Span(s[0]);
      if n <= |s| && XmlChar(s[..n]) {
        LexText(s[n..], rest, open);
        PrependTwice([CharacterData(s[..n])], CharEvents(NormalizeEnds(s[n..])), Lex(rest, open, true));
        PrependFails([CharacterData(s[..n])]);
      }
    } else {
      LexText(s[1..], rest, open);
      EncodedFirst(s);
      var tail := Escape(s[1..]) + rest;
      var text := EscapeByte(s[0]) + tail;
      assert Escape(s) + rest == text;
      EscapeStart(s);
      LexOneChar(text, open);
      NoControlFirst(s);
      if |s| > 1 { EscapeStart(s[1..]); }
      if s[0] == CR && |s| > 1 && s[1] == LF {
        LexCrLf(s, tail);
        assert text[1..] == tail;
        assert !IsControl(s[0]);
        PrependNothing(Lex(tail, open, true));
      } else {
        LexEscaped(s[0], tail);
        assert text[|EscapeByte(s[0])|..] == tail;
        NormalizeOne(s);
        var c := if s[0] == CR then LF else s[0];
        PrependTwice([CharacterData([c])], CharEvents(NormalizeEnds(s[1..])), Lex(rest, open, true));
        PrependFails([CharacterData([c])]);
      }
    }
  }

  lemma {:induction false} PrependFails(es: seq<Event>)
    ensures Prepend(es, None) == None
  {
  }

  lemma {:induction false} NormalizeOne(s: seq<byte>)
    requires s != [] && s[0] < 0x80 && !(s[0] == CR && |s| > 1 && s[1] == LF)
    ensures var c := if s[0] == CR then LF else s[0];
            CharEvents(NormalizeEnds(s)) == [CharacterData([c])] + CharEvents(NormalizeEnds(s[1..]))
  {
    hide CharEvents;
    var c := if s[0] == CR then LF else s[0];
    CharFirst([c], NormalizeEnds(s[1..]));
  }

  lemma {:induction false} LexCrLf(s: seq<byte>, tail: seq<byte>)
    requires |s| > 1 && s[0] == CR && s[1] == LF
    requires tail != [] && tail[0] == LF
    ensures EscapeByte(s[0]) == [CR] && LexChar([CR] + tail) == ([], 1) && !IsControl(CR)
  {
  }

  lemma {:induction false} RenderStartsWithLt(n: Node)
    requires !n.Text?
    ensures Render(n) != [] && Render(n)[0] == LT
  {
  }

  /** The lexer recovers a document's events from its text, and refuses it exactly when some text is
      not UTF-8 or has a control character. */
  lemma {:induction false} LexNode(n: Node, rest: seq<byte>, open: seq<string>)
    requires WellNamed(n) && open != []
    requires n.Text? ==> rest != [] && rest[0] == LT
    ensures Lex(Render(n) + rest, open, true)
         == if Clean(n) then Prepend(Events(n), Lex(rest, open, true)) else None
    decreases n, 1
  {
    hide IsName, Lex, OpenTag, CloseTag, EmptyTag, Escape;
    match n
    case Text(text) => LexText(text, rest, open);
    case SelfClosing(name) => LexEmpty(name, rest, open, true);
    case Elem(name, content) => LexElem(n, rest, open, true);
  }

  lemma {:induction false} LexElem(n: Node, rest: seq<byte>, open: seq<string>, rooted: bool)
    requires WellNamed(n) && n.Elem? && (open != [] || !rooted)
    ensures Lex(Render(n) + rest, open, rooted)
         == if Clean(n) then Prepend(Events(n), Lex(rest, open, true)) else None
    decreases n, 0
  {
    hide IsName, Lex, OpenTag, CloseTag;
    var name, content := n.name, n.content;
    var tail := CloseTag(name) + rest;
    assert Render(n) + rest == OpenTag(name) + (RenderAll(content) + tail);
    LexOpen(name, RenderAll(content) + tail, open, rooted);
    CloseTagStart(name);
    LexNodes(content, tail, open + [name]);
    LexClose(name, rest, open);
    var r := Lex(rest, open, true);
    PrependTwice(AllEvents(content), [EndElement(name)], r);
    PrependTwice([StartElement(name)], AllEvents(content) + [EndElement(name)], r);
    assert [StartElement(name)] + (AllEvents(content) + [EndElement(name)]) == Events(n);
  }

  lemma {:induction false} CloseTagStart(name: string)
    ensures CloseTag(name) != [] && CloseTag(name)[0] == LT
  {
  }

  lemma {:induction false} LexNodes(ns: seq<Node>, rest: seq<byte>, open: seq<string>)
    requires AllWellNamed(ns) && open != []
    requires rest != [] && rest[0] == LT
    ensures Lex(RenderAll(ns) + rest, open, true)
         == if AllClean(ns) then Prepend(AllEvents(ns), Lex(rest, open, true)) else None
    decreases ns, 0
  {
    hide Lex, Render, WellNamed, Clean, Events;
    if ns == [] {
      assert RenderAll(ns) + rest == rest;
      PrependNothing(Lex(rest, open, true));
    } else {
      var tail := RenderAll(ns[1..]) + rest;
      assert RenderAll(ns) + rest == Render(ns[0]) + tail;
      if ns[0].Text? {
        if |ns| > 1 {
          RenderStartsWithLt(ns[1]);
        }
        assert tail != [] && tail[0] == LT;
      }
      LexNodes(ns[1..], rest, open);
      LexNode(ns[0], tail, open);
      PrependTwice(Events(ns[0]), AllEvents(ns[1..]), Lex(rest, open, true));
    }
  }
}
