/**
 The serializer and the parser together: what a value's text parses back to.
 */
module Codec {
  import opened Bytes
  import opened Xml
  import opened Sax
  import opened Values
  import Base64
  import Utf8

  // ---------------------------------------------------------------- the documents are well formed

  lemma {:induction false} ElementNames()
    ensures IsName("value") && IsName("i4") && IsName("boolean") && IsName("string")
    ensures IsName("dateTime.iso8601") && IsName("base64") && IsName("nil")
    ensures IsName("array") && IsName("data") && IsName("struct") && IsName("member") && IsName("name")
  {
  }

  lemma {:induction false} OneChild(name: string, child: Node)
    requires IsName(name) && WellNamed(child)
    ensures WellNamed(Elem(name, [child]))
  {
    hide IsName;
    assert [child][1..] == [];
    assert AllWellNamed([]);
  }

  lemma {:induction false} MoreContent(n: Node, ns: seq<Node>)
    requires WellNamed(n) && AllWellNamed(ns)
    requires n.Text? && ns != [] ==> !ns[0].Text?
    ensures AllWellNamed([n] + ns)
  {
    assert ([n] + ns)[1..] == ns;
  }

  lemma {:induction false} DocWellNamed(v: Value)
    requires Serializable(v)
    ensures WellNamed(Doc(v))
    decreases v, 1
  {
    hide IsName, WellNamed, AllWellNamed;
    ElementNames();
    var inner := Doc(v).content[0];
    assert WellNamed(inner) by {
      match v
      case Int(i) => LeafWellNamed("i4", Decimal(i));
      case Bool(b) => LeafWellNamed("boolean", Decimal(if b then 1 else 0));
      case Str(s) => LeafWellNamed("string", s);
      case DateTime(s) => LeafWellNamed("dateTime.iso8601", s);
      case Binary(data) => LeafWellNamed("base64", CRLF + Base64.Encoded(data, true));
      case Nil => NilWellNamed();
      case Array(items) =>
        ItemsWellNamed(items);
        OneChild("array", Elem("data", [BREAK] + DocItems(items)));
      case Struct(ms) => MembersWellNamed(ms);
    }
    OneChild("value", inner);
  }

  lemma {:induction false} NilWellNamed()
    ensures WellNamed(SelfClosing("nil"))
  {
    ElementNames();
  }

  lemma {:induction false} LeafWellNamed(name: string, text: seq<byte>)
    requires IsName(name)
    ensures WellNamed(Leaf(name, text)) && WellNamed(Text(text))
  {
    OneChild(name, Text(text));
  }

  lemma {:induction false} ItemsWellNamed(items: seq<Value>)
    requires forall k | 0 <= k < |items| :: Serializable(items[k])
    ensures AllWellNamed(DocItems(items)) && (items != [] ==> !DocItems(items)[0].Text?)
    ensures WellNamed(Elem("data", [BREAK] + DocItems(items)))
    decreases items, 0
  {
    hide IsName;
    ElementNames();
    if items != [] {
      DocWellNamed(items[0]);
      ItemsWellNamed(items[1..]);
      MoreContent(BREAK, DocItems(items[1..]));
      MoreContent(Doc(items[0]), [BREAK] + DocItems(items[1..]));
      assert DocItems(items) == [Doc(items[0])] + ([BREAK] + DocItems(items[1..]));
    }
    MoreContent(BREAK, DocItems(items));
  }

  lemma {:induction false} MembersWellNamed(ms: seq<Member>)
    requires forall k | 0 <= k < |ms| :: Serializable(ms[k].value)
    ensures AllWellNamed(DocMembers(ms)) && (ms != [] ==> !DocMembers(ms)[0].Text?)
    ensures WellNamed(Elem("struct", [BREAK] + DocMembers(ms)))
    decreases ms, 0
  {
    hide IsName, AllWellNamed, Serializable;
    ElementNames();
    NothingWellNamed();
    if ms != [] {
      DocWellNamed(ms[0].value);
      MemberWellNamed(ms[0]);
      MembersWellNamed(ms[1..]);
      MoreContent(BREAK, DocMembers(ms[1..]));
      MoreContent(DocMember(ms[0]), [BREAK] + DocMembers(ms[1..]));
      assert DocMembers(ms) == [DocMember(ms[0])] + ([BREAK] + DocMembers(ms[1..]));
    }
    MoreContent(BREAK, DocMembers(ms));
  }

  lemma {:induction false} NothingWellNamed()
    ensures AllWellNamed([])
  {
  }

  lemma {:induction false} MemberWellNamed(m: Member)
    requires Serializable(m.value) && WellNamed(Doc(m.value))
    ensures WellNamed(DocMember(m))
  {
    hide IsName;
    ElementNames();
    LeafWellNamed("name", m.key);
    assert AllWellNamed([]);
    MoreContent(Doc(m.value), []);
    MoreContent(BREAK, [Doc(m.value)]);
    MoreContent(Leaf("name", m.key), [BREAK, Doc(m.value)]);
    assert [Leaf("name", m.key)] + [BREAK, Doc(m.value)] == [Leaf("name", m.key), BREAK, Doc(m.value)];
    assert [BREAK] + [Doc(m.value)] == [BREAK, Doc(m.value)];
    assert [Doc(m.value)] + [] == [Doc(m.value)];
  }

  // ---------------------------------------------------------------- portable texts survive the lexer

  lemma {:induction false} OneCleanChild(name: string, child: Node)
    ensures Clean(Elem(name, [child])) <==> Clean(child)
  {
    assert [child][1..] == [] && AllClean([]);
    assert AllClean([child]) <==> Clean(child);
  }

  lemma {:induction false} MoreClean(n: Node, ns: seq<Node>)
    requires Clean(n) && AllClean(ns)
    ensures AllClean([n] + ns)
  {
    assert ([n] + ns)[1..] == ns;
  }

  predicate IsPlain(s: seq<byte>) { forall k | 0 <= k < |s| :: s[k] < 0x80 && !IsControl(s[k]) }

  lemma {:induction false} DigitsClean(n: nat)
    ensures IsPlain(Digits(n)) && CR !in Digits(n)
  {
    if n >= 10 {
      DigitsClean(n / 10);
    }
  }

  lemma {:induction false} EncodingClean(bin: seq<byte>, newlines: bool)
    ensures IsPlain(Base64.Encoded(bin, newlines))
  {
    if bin != [] {
      LinesClean(bin, newlines);
    }
  }

  lemma {:induction false} LinesClean(bin: seq<byte>, newlines: bool)
    ensures IsPlain(Base64.JoinLines(Base64.Lines(bin), newlines))
  {
    hide Base64.Rfc4648;
    if bin != [] {
      var left := if |bin| > Base64.MAXBIN then Base64.MAXBIN else |bin|;
      Base64.LinesStep(bin, left, newlines);
      RfcClean(bin[..left]);
      LinesClean(bin[left..], newlines);
    } else {
      Base64.NoLines(newlines);
    }
  }

  lemma {:induction false} RfcClean(bin: seq<byte>)
    ensures IsPlain(Base64.Rfc4648(bin))
  {
    hide Base64.ToAscii, Base64.First, Base64.Second, Base64.Third, Base64.Fourth;
    forall s: Base64.sextet ensures 32 < Base64.ToAscii(s) < 128 { Base64.Alphabet(s); }
    if |bin| >= 3 {
      RfcClean(bin[3..]);
    }
  }

  lemma {:induction false} DocClean(v: Value)
    requires Serializable(v) && Portable(v)
    ensures Clean(Doc(v))
    decreases v, 1
  {
    hide Clean, AllClean, IsText;
    var inner := Doc(v).content[0];
    assert Clean(inner) by {
      match v
      case Int(i) => DecimalClean(i); LeafClean("i4", Decimal(i));
      case Bool(b) => DecimalClean(if b then 1 else 0); LeafClean("boolean", Decimal(if b then 1 else 0));
      case Str(s) => LeafClean("string", s);
      case DateTime(s) => LeafClean("dateTime.iso8601", s);
      case Binary(data) => BinaryClean(data); LeafClean("base64", CRLF + Base64.Encoded(data, true));
      case Nil => NilClean();
      case Array(items) =>
        ItemsClean(items);
        OneCleanChild("array", Elem("data", [BREAK] + DocItems(items)));
      case Struct(ms) => MembersClean(ms);
    }
    OneCleanChild("value", inner);
  }

  lemma {:induction false} DecimalClean(i: int)
    ensures IsText(Decimal(i)) && CR !in Decimal(i)
  {
    DigitsClean(if i < 0 then -i else i);
    AsciiIsText(Decimal(i));
  }

  lemma {:induction false} BinaryClean(data: seq<byte>)
    ensures IsText(CRLF + Base64.Encoded(data, true))
  {
    EncodingClean(data, true);
    AsciiIsText(CRLF + Base64.Encoded(data, true));
  }

  lemma {:induction false} NilClean()
    ensures Clean(SelfClosing("nil"))
  {
  }

  lemma {:induction false} LeafClean(name: string, text: seq<byte>)
    requires IsText(text)
    ensures Clean(Leaf(name, text))
  {
    OneCleanChild(name, Text(text));
  }

  lemma {:induction false} BreakClean()
    ensures Clean(BREAK) && AllClean([])
  {
    AsciiIsText(CRLF);
  }

  lemma {:induction false} ItemsClean(items: seq<Value>)
    requires forall k | 0 <= k < |items| :: Serializable(items[k]) && Portable(items[k])
    ensures AllClean(DocItems(items)) && Clean(Elem("data", [BREAK] + DocItems(items)))
    decreases items, 0
  {
    BreakClean();
    if items != [] {
      DocClean(items[0]);
      ItemsClean(items[1..]);
      MoreClean(BREAK, DocItems(items[1..]));
      MoreClean(Doc(items[0]), [BREAK] + DocItems(items[1..]));
      assert DocItems(items) == [Doc(items[0])] + ([BREAK] + DocItems(items[1..]));
    }
    MoreClean(BREAK, DocItems(items));
  }

  lemma {:induction false} MembersClean(ms: seq<Member>)
    requires forall k | 0 <= k < |ms| :: Serializable(ms[k].value) && Portable(ms[k].value) && IsText(ms[k].key)
    ensures AllClean(DocMembers(ms)) && Clean(Elem("struct", [BREAK] + DocMembers(ms)))
    decreases ms, 0
  {
    BreakClean();
    if ms != [] {
      DocClean(ms[0].value);
      MemberClean(ms[0]);
      MembersClean(ms[1..]);
      MoreClean(BREAK, DocMembers(ms[1..]));
      MoreClean(DocMember(ms[0]), [BREAK] + DocMembers(ms[1..]));
      assert DocMembers(ms) == [DocMember(ms[0])] + ([BREAK] + DocMembers(ms[1..]));
    }
    MoreClean(BREAK, DocMembers(ms));
  }

  lemma {:induction false} MemberClean(m: Member)
    requires Serializable(m.value) && Clean(Doc(m.value)) && IsText(m.key)
    ensures Clean(DocMember(m))
  {
    BreakClean();
    LeafClean("name", m.key);
    MoreClean(Doc(m.value), []);
    MoreClean(BREAK, [Doc(m.value)]);
    MoreClean(Leaf("name", m.key), [BREAK, Doc(m.value)]);
    assert [Leaf("name", m.key)] + [BREAK, Doc(m.value)] == [Leaf("name", m.key), BREAK, Doc(m.value)];
    assert [BREAK] + [Doc(m.value)] == [BREAK, Doc(m.value)];
    assert [Doc(m.value)] + [] == [Doc(m.value)];
  }

  // ---------------------------------------------------------------- the trees of printed values

  lemma {:induction false} NoCrUnchanged(s: seq<byte>)
    requires CR !in s
    ensures NormalizeEnds(s) == s
  {
    if s != [] {
      NoCrUnchanged(s[1..]);
    }
  }

  /** Line-end normalisation does not disturb a Base64 text. */
  lemma {:induction false} Base64Normalized(s: seq<byte>)
    ensures Base64.Sextets(NormalizeEnds(s)) == Base64.Sextets(s)
    ensures Base64.Pads(NormalizeEnds(s)) == Base64.Pads(s)
  {
    hide Base64.FromAscii;
    if s != [] {
      Base64Normalized(s[1..]);
      var t := NormalizeEnds(s);
      if s[0] != CR {
        assert t == [s[0]] + NormalizeEnds(s[1..]);
        assert t[1..] == NormalizeEnds(s[1..]);
      } else if |s| > 1 && s[1] == LF {
        assert t == NormalizeEnds(s[1..]);
      } else {
        assert t[1..] == NormalizeEnds(s[1..]);
      }
    }
  }

  lemma {:induction false} BinaryReads(data: seq<byte>)
    ensures Base64.Decoded(NormalizeEnds(CRLF + Base64.Encoded(data, true))) == Ok(data)
  {
    hide Base64.Encoded, Base64.Unpack, Base64.Sextets, Base64.Pads;
    Base64Normalized(CRLF + Base64.Encoded(data, true));
    Base64.LineEnds();
    Base64.SextetsAppend(CRLF, Base64.Encoded(data, true));
    Base64.RoundTrip(data, true);
    assert [] + Base64.Sextets(Base64.Encoded(data, true)) == Base64.Sextets(Base64.Encoded(data, true));
  }

  lemma {:induction false} OnlyChild(name: string, child: Node)
    requires !child.Text?
    ensures Tree(Elem(name, [child])) == XmlTree(name, [], [Tree(child)])
  {
    hide Tree;
    assert [child][1..] == [];
    assert TextOf([child]) == [] && Children([child]) == [Tree(child)] by {
      assert TextOf([]) == [] && Children([]) == [];
    }
    assert Tree(Elem(name, [child])) == XmlTree(name, TextOf([child]), Children([child])) by { TreeOfElem(name, [child]); }
  }

  lemma {:induction false} TreeOfElem(name: string, content: seq<Node>)
    ensures Tree(Elem(name, content)) == XmlTree(name, TextOf(content), Children(content))
  {
  }

  lemma {:induction false} LeafTree(name: string, text: seq<byte>)
    ensures Tree(Leaf(name, text)) == XmlTree(name, NormalizeEnds(text), [])
  {
    assert [Text(text)][1..] == [];
    assert TextOf([]) == [] && Children([]) == [];
    assert TextOf([Text(text)]) == NormalizeEnds(text);
    assert Children([Text(text)]) == [];
  }

  /** Reading back the text of a scalar. */
  lemma {:induction false} ScalarReads(v: Value)
    requires Serializable(v) && Portable(v) && !v.Array? && !v.Struct?
    ensures var t := Tree(Doc(v).content[0]);
            t.children == [] && t.name !in ["struct", "array"] && ConvertScalar(t.name, t.cdata) == Ok(v)
  {
    hide Utf8.Legal, IsText, Base64.Decoded, Atoi, Tree;
    match v
    case Int(i) => LeafTree("i4", Decimal(i)); DecimalReads(i); AtoiDecimal(i, INT32_MIN, INT32_MAX);
    case Bool(b) =>
      LeafTree("boolean", Decimal(if b then 1 else 0));
      DecimalReads(if b then 1 else 0);
      AtoiDecimal(if b then 1 else 0, 0, 1);
    case Str(s) => LeafTree("string", s); NoCrUnchanged(s);
    case DateTime(s) => LeafTree("dateTime.iso8601", s); NoCrUnchanged(s); NoNul(s);
    case Binary(data) => LeafTree("base64", CRLF + Base64.Encoded(data, true)); BinaryReads(data);
    case Nil => NilTree();
  }

  lemma {:induction false} NilTree()
    ensures Tree(SelfClosing("nil")) == XmlTree("nil", [], [])
  {
  }

  lemma {:induction false} NoNul(s: seq<byte>)
    requires IsText(s)
    ensures 0 !in s
  {
  }

  lemma {:induction false} DecimalReads(i: int)
    ensures CString(NormalizeEnds(Decimal(i))) == Decimal(i)
  {
    DecimalClean(i);
    NoCrUnchanged(Decimal(i));
    NoNul(Decimal(i));
  }

  function Outcome<T>(ok: bool, value: T): Result<T>
  {
    if ok then Ok(value) else Fault(PARSE_ERROR)
  }

  /** convert_value gives a portable value back exactly down to its nesting depth; with a smaller
      limit it faults. */
  lemma {:induction false} DocConverts(max: nat, v: Value)
    requires Serializable(v) && KeysDistinct(v) && Portable(v)
    ensures ConvertValue(max, Tree(Doc(v))) == Outcome(Depth(v) <= max, v)
    decreases v, 1
  {
    hide Tree, ConvertScalar, Portable, KeysDistinct;
    var inner := Doc(v).content[0];
    OnlyChild("value", inner);
    assert Doc(v) == Elem("value", [inner]);
    var t := Tree(Doc(v));
    assert t.children[0] == Tree(inner);
    if max >= 1 {
      if v.Array? {
        ItemsConvert(max, v);
      } else if v.Struct? {
        StructConverts(max, v);
      } else {
        ScalarReads(v);
      }
    }
  }

  lemma {:induction false} BreakFirst(ns: seq<Node>)
    ensures Children([BREAK] + ns) == Children(ns)
  {
    assert ([BREAK] + ns)[1..] == ns;
  }

  lemma {:induction false} ElementFirst(n: Node, ns: seq<Node>)
    requires !n.Text?
    ensures Children([n, BREAK] + ns) == [Tree(n)] + Children(ns)
  {
    hide Tree;
    assert ([n, BREAK] + ns)[1..] == [BREAK] + ns;
    BreakFirst(ns);
  }

  lemma {:induction false} ItemsConvert(max: nat, v: Value)
    requires v.Array? && Serializable(v) && KeysDistinct(v) && Portable(v) && max >= 1
    ensures var t := Tree(Doc(v).content[0]);
            && t.name == "array" && |t.children| == 1 && t.children[0].name == "data"
            && ConvertItems(max, t.children[0].children) == Outcome(MaxDepth(v.items) < max, v.items)
    decreases v, 0
  {
    hide Tree, ConvertValue;
    var data := Elem("data", [BREAK] + DocItems(v.items));
    OnlyChild("array", data);
    TreeOfElem("data", [BREAK] + DocItems(v.items));
    BreakFirst(DocItems(v.items));
    ItemListConverts(max, v.items);
  }

  lemma {:induction false} ItemListConverts(max: nat, items: seq<Value>)
    requires forall k | 0 <= k < |items| :: Serializable(items[k]) && KeysDistinct(items[k]) && Portable(items[k])
    requires max >= 1
    ensures ConvertItems(max, Children(DocItems(items))) == Outcome(MaxDepth(items) < max, items)
    decreases items, 0
  {
    hide Tree, ConvertValue, Depth, Serializable, KeysDistinct, Portable;
    if items == [] {
      assert Children(DocItems(items)) == [];
    } else {
      ElementFirst(Doc(items[0]), DocItems(items[1..]));
      DocConverts(max - 1, items[0]);
      ItemListConverts(max, items[1..]);
      var kids := Children(DocItems(items));
      assert kids[0] == Tree(Doc(items[0])) && kids[1..] == Children(DocItems(items[1..]));
      assert [items[0]] + items[1..] == items;
    }
  }

  lemma {:induction false} StructConverts(max: nat, v: Value)
    requires v.Struct? && Serializable(v) && KeysDistinct(v) && Portable(v) && max >= 1
    ensures var t := Tree(Doc(v).content[0]);
            && t.name == "struct"
            && ConvertMembers(max, t.children, []) == Outcome(MaxMemberDepth(v.members) < max, v.members)
    decreases v, 0
  {
    hide Tree, ConvertMember;
    TreeOfElem("struct", [BREAK] + DocMembers(v.members));
    BreakFirst(DocMembers(v.members));
    MemberListConverts(max, [], v.members);
    assert [] + v.members == v.members;
  }

  predicate Carried(m: Member)
  {
    && Serializable(m.value) && KeysDistinct(m.value) && Portable(m.value)
    && Utf8.Legal(m.key) && Printable(m.key)
  }

  lemma {:induction false} MemberTree(m: Member)
    requires Serializable(m.value) && CR !in m.key
    ensures var t := Tree(DocMember(m));
            && t.name == "member"
            && t.children == [XmlTree("name", m.key, []), Tree(Doc(m.value))]
            && Tree(Doc(m.value)).name == "value"
  {
    hide Tree;
    var content := [Leaf("name", m.key), BREAK, Doc(m.value)];
    TreeOfElem("member", content);
    LeafTree("name", m.key);
    NoCrUnchanged(m.key);
    assert content == [Leaf("name", m.key), BREAK] + [Doc(m.value)];
    ElementFirst(Leaf("name", m.key), [Doc(m.value)]);
    OnlyChild("x", Doc(m.value));
    TreeOfElem("x", [Doc(m.value)]);
    OnlyChild("value", Doc(m.value).content[0]);
    assert Doc(m.value) == Elem("value", [Doc(m.value).content[0]]);
  }

  lemma {:induction false} MemberConverts(max: nat, m: Member)
    requires Carried(m) && max >= 1
    ensures ConvertMember(max, Tree(DocMember(m))) == Outcome(Depth(m.value) < max, m)
    decreases m, 2
  {
    hide Tree, Utf8.Legal, Portable, KeysDistinct, ConvertValue, ChildNamed;
    MemberTree(m);
    DocConverts(max - 1, m.value);
    assert |"name"| != |"value"|;
    OneOfEach(XmlTree("name", m.key, []), Tree(Doc(m.value)));
  }

  lemma {:induction false} MemberListConverts(max: nat, before: seq<Member>, ms: seq<Member>)
    requires forall k | 0 <= k < |ms| :: Serializable(ms[k].value) && Carried(ms[k])
    requires DistinctKeys(before + ms) && max >= 1
    ensures ConvertMembers(max, Children(DocMembers(ms)), before) == Outcome(MaxMemberDepth(ms) < max, before + ms)
    decreases ms, 0
  {
    hide Tree, ConvertMember, Depth, Serializable, KeysDistinct, Portable, KeyIndex, Utf8.Legal;
    if ms == [] {
      assert Children(DocMembers(ms)) == [];
      assert before + ms == before;
    } else {
      ElementFirst(DocMember(ms[0]), DocMembers(ms[1..]));
      MemberConverts(max, ms[0]);
      assert before + ms == before + [ms[0]] + ms[1..];
      NewKey(before, ms);
      MemberListConverts(max, before + [ms[0]], ms[1..]);
      var kids := Children(DocMembers(ms));
      assert kids[0] == Tree(DocMember(ms[0])) && kids[1..] == Children(DocMembers(ms[1..]));
    }
  }

  lemma {:induction false} NewKey(before: seq<Member>, ms: seq<Member>)
    requires ms != [] && DistinctKeys(before + ms)
    ensures SetMember(before, ms[0].key, ms[0].value) == before + [ms[0]]
  {
    hide KeyIndex;
    forall k | 0 <= k < |before|
      ensures before[k].key != ms[0].key
    {
      assert (before + ms)[k] == before[k] && (before + ms)[|before|] == ms[0];
    }
  }

  // ---------------------------------------------------------------- what parsing can deliver

  /** Whatever tree is converted: a delivered value is no deeper than the limit, has distinct keys,
      legal UTF-8 strings and no C pointer; and if the tree came from a parsed text, nothing in the
      value is altered by printing and parsing again. */
  lemma {:induction false} ConvertSound(max: nat, t: XmlTree)
    requires ConvertValue(max, t).Ok?
    ensures var v := ConvertValue(max, t).value;
            && Depth(v) <= max && Serializable(v) && KeysDistinct(v)
            && (PrintableTree(t) ==> Portable(v))
    decreases t, 1
  {
    hide Utf8.Legal, Printable, Base64.Decoded, Atoi, ConvertScalar, CString, ConvertItems, ConvertMembers, MaxDepth, MaxMemberDepth;
    if t.children != [] {
      var child := t.children[0];
      assert PrintableTree(t) ==> PrintableTree(child);
      if child.name == "struct" {
        NoMembersSound();
        MembersSound(max, child.children, []);
        assert PrintableTree(child) ==> forall k | 0 <= k < |child.children| :: PrintableTree(child.children[k]);
      } else if child.name == "array" {
        var data := child.children[0];
        ItemsSound(max, data.children);
        assert PrintableTree(child) ==> PrintableTree(data);
        assert PrintableTree(data) ==> forall k | 0 <= k < |data.children| :: PrintableTree(data.children[k]);
      } else {
        ScalarSound(child.name, child.cdata);
      }
    }
  }

  lemma {:induction false} NoMembersSound()
    ensures SoundMembers([]) && MaxMemberDepth([]) == 0
  {
  }

  lemma {:induction false} ScalarSound(name: string, cdata: seq<byte>)
    requires ConvertScalar(name, cdata).Ok?
    ensures var v := ConvertScalar(name, cdata).value;
            && Depth(v) == 1 && Serializable(v) && KeysDistinct(v)
            && (Printable(cdata) ==> Portable(v))
  {
    hide Utf8.Legal, Base64.Decoded, Atoi, IsText;
    if Printable(cdata) {
      NoNul(cdata);
    }
  }

  lemma {:induction false} ItemsSound(max: nat, ts: seq<XmlTree>)
    requires max >= 1 && ConvertItems(max, ts).Ok?
    ensures var items := ConvertItems(max, ts).value;
            && MaxDepth(items) < max
            && (forall k | 0 <= k < |items| :: Serializable(items[k]) && KeysDistinct(items[k]))
            && ((forall k | 0 <= k < |ts| :: PrintableTree(ts[k])) ==> forall k | 0 <= k < |items| :: Portable(items[k]))
    decreases ts, 0
  {
    hide ConvertValue, Depth, Serializable, KeysDistinct, Portable, PrintableTree;
    if ts != [] {
      ConvertSound(max - 1, ts[0]);
      ItemsSound(max, ts[1..]);
    }
  }

  predicate SoundMembers(ms: seq<Member>)
  {
    DistinctKeys(ms)
    && forall k | 0 <= k < |ms| :: Serializable(ms[k].value) && KeysDistinct(ms[k].value)
  }

  predicate PortableMember(m: Member)
  {
    Utf8.Legal(m.key) && Printable(m.key) && Portable(m.value)
  }

  lemma {:induction false} MembersSound(max: nat, ts: seq<XmlTree>, before: seq<Member>)
    requires max >= 1 && ConvertMembers(max, ts, before).Ok?
    requires SoundMembers(before) && MaxMemberDepth(before) < max
    ensures var ms := ConvertMembers(max, ts, before).value;
            && SoundMembers(ms) && MaxMemberDepth(ms) < max
            && ((forall k | 0 <= k < |ts| :: PrintableTree(ts[k])) && (forall k | 0 <= k < |before| :: PortableMember(before[k]))
                ==> forall k | 0 <= k < |ms| :: PortableMember(ms[k]))
    decreases ts, 0
  {
    hide ConvertMember, Depth, Serializable, KeysDistinct, Portable, PrintableTree, KeyIndex, PortableMember;
    if ts != [] {
      MemberSound(max, ts[0]);
      var m := ConvertMember(max, ts[0]).value;
      var next := SetMember(before, m.key, m.value);
      SetMemberLaws(before, m.key, m.value);
      SetMemberDepth(max, before, m);
      var i := KeyIndex(before, m.key);
      assert next[i] == m;
      assert SoundMembers(next);
      MembersSound(max, ts[1..], next);
    }
  }

  lemma {:induction false} MemberSound(max: nat, t: XmlTree)
    requires max >= 1 && ConvertMember(max, t).Ok?
    ensures var m := ConvertMember(max, t).value;
            && Depth(m.value) < max && Serializable(m.value) && KeysDistinct(m.value)
            && (PrintableTree(t) ==> PortableMember(m))
    decreases t, 2
  {
    hide ConvertValue, Depth, Serializable, KeysDistinct, Portable, Printable, ChildNamed, Utf8.Legal;
    var n, k := ChildNamed(t.children, "name"), ChildNamed(t.children, "value");
    assert PrintableTree(t) ==> PrintableTree(t.children[n]) && PrintableTree(t.children[k]);
    ConvertSound(max - 1, t.children[k]);
  }

  lemma {:induction false} DepthOfMembers(max: nat, ms: seq<Member>)
    requires max >= 1
    ensures MaxMemberDepth(ms) < max <==> forall k | 0 <= k < |ms| :: Depth(ms[k].value) < max
  {
    hide Depth;
    if ms != [] {
      DepthOfMembers(max, ms[1..]);
      assert forall k | 1 <= k < |ms| :: ms[k] == ms[1..][k - 1];
    }
  }

  lemma {:induction false} SetMemberDepth(max: nat, ms: seq<Member>, m: Member)
    requires max >= 1 && MaxMemberDepth(ms) < max && Depth(m.value) < max
    ensures MaxMemberDepth(SetMember(ms, m.key, m.value)) < max
  {
    hide Depth, KeyIndex;
    DepthOfMembers(max, ms);
    DepthOfMembers(max, SetMember(ms, m.key, m.value));
  }

  // ---------------------------------------------------------------- the round trip

  /** The text of a value, and reading a value from a text. */
  function ValueText(v: Value): seq<byte>
    requires Serializable(v)
  {
    Render(Doc(v))
  }

  function ParseValueText(max: nat, bs: seq<byte>): Result<Value>
  {
    match ParseXml(bs)
    case Ok(t) => ConvertValue(max, t)
    case Fault(code) => Fault(code)
  }

  lemma {:induction false} TextParses(v: Value)
    requires Serializable(v)
    ensures ParseXml(ValueText(v)) == if Clean(Doc(v)) then Ok(Tree(Doc(v))) else Fault(PARSE_ERROR)
  {
    hide Run, Render, Events, Tree, Clean, WellNamed, IsName, Lex;
    DocWellNamed(v);
    assert ValueText(v) + [] == ValueText(v);
    LexElem(Doc(v), [], [], false);
    LexSpace([]);
    BuildsTree(Doc(v));
    assert Events(Doc(v)) + [] == Events(Doc(v));
  }

  /** Print, lex, build, convert: a value comes back exactly when it is portable and its nesting
      depth is within the limit. Too deep a value faults. */
  lemma {:induction false} RoundTrip(max: nat, v: Value)
    requires Serializable(v) && KeysDistinct(v)
    ensures ParseValueText(max, ValueText(v)) == Ok(v) <==> Portable(v) && Depth(v) <= max
    ensures Portable(v) && Depth(v) > max ==> ParseValueText(max, ValueText(v)) == Fault(PARSE_ERROR)
  {
    hide ParseXml, ValueText, ConvertValue, Portable, Serializable, KeysDistinct, Depth, Doc, Tree, Clean;
    TextParses(v);
    if Portable(v) {
      DocClean(v);
      DocConverts(max, v);
    }
    if ParseValueText(max, ValueText(v)) == Ok(v) {
      ParsedIsPrintable(ValueText(v));
      ConvertSound(max, ParseXml(ValueText(v)).value);
    }
  }

  lemma {:induction false} LegalIsEncoded(s: seq<byte>)
    requires Utf8.Legal(s)
    ensures Encoded(s)
    decreases |s|
  {
    hide Utf8.Utf8Char;
    if s != [] {
      var n := Utf8.Claimed(s[0]);
      assert Span(s[0]) == n by { LeadTold(s[..n]); }
      LegalIsEncoded(s[n..]);
    }
  }

  lemma {:induction false} LeadTold(c: seq<byte>)
    requires Utf8.Utf8Char(c)
    ensures Span(c[0]) == Utf8.Claimed(c[0]) == |c|
  {
  }

  /** When a string and when a date survive. */
  lemma {:induction false} PortableTexts(s: seq<byte>)
    ensures Portable(Str(s)) <==> Utf8.Legal(s) && HasNoControl(s) && CR !in s
    ensures Portable(DateTime(s)) <==> Encoded(s) && HasNoControl(s) && CR !in s
  {
    hide Utf8.Legal, HasNoControl, Encoded;
    if Utf8.Legal(s) {
      LegalIsEncoded(s);
    }
  }

  lemma {:induction false} LeafOutcome(max: nat, v: Value, name: string, text: seq<byte>)
    requires Serializable(v) && Doc(v) == Elem("value", [Leaf(name, text)]) && max >= 1
    requires name !in ["struct", "array"]
    ensures ParseValueText(max, ValueText(v))
         == if IsText(text) then ConvertScalar(name, NormalizeEnds(text)) else Fault(PARSE_ERROR)
  {
    hide ParseXml, ValueText, IsText, Tree, ConvertScalar;
    TextParses(v);
    LeafTree(name, text);
    TreeOfElem("value", [Leaf(name, text)]);
    OnlyChild("value", Leaf(name, text));
    assert Clean(Doc(v)) <==> IsText(text) by { CleanLeaf(name, text); }
  }

  lemma {:induction false} CleanLeaf(name: string, text: seq<byte>)
    ensures Clean(Elem("value", [Leaf(name, text)])) <==> IsText(text)
  {
    OneCleanChild(name, Text(text));
    OneCleanChild("value", Leaf(name, text));
  }

  /** Of the ASCII characters, those from the space on, the tab and the line feed survive in a string, and
      no others. */
  lemma {:induction false} AsciiSurvives(max: nat, b: byte)
    requires max >= 1 && b < 0x80
    ensures ParseValueText(max, ValueText(Str([b]))) == Ok(Str([b])) <==> b >= 32 || b == 9 || b == 10
  {
    hide ParseValueText, ValueText, Portable;
    RoundTrip(max, Str([b]));
    PortableTexts([b]);
    assert Utf8.Legal([b]) by { assert [b][1..] == [] && [b][..1] == [b]; }
    assert HasNoControl([b]) <==> !IsControl(b) by { assert [b][0] == b; }
  }

  /** Texts that do not survive: a carriage return comes back as a line feed; a control character, and a
      date that is not UTF-8, are printed and then refused. */
  lemma {:induction false} TextsThatDoNotSurvive(max: nat)
    requires max >= 1
    ensures ParseValueText(max, ValueText(Str([CR]))) == Ok(Str([LF]))
    ensures ParseValueText(max, ValueText(Str([1]))) == Fault(PARSE_ERROR)
    ensures ParseValueText(max, ValueText(DateTime([0x80]))) == Fault(PARSE_ERROR)
  {
    hide ParseValueText, ValueText;
    LeafOutcome(max, Str([CR]), "string", [CR]);
    LeafOutcome(max, Str([1]), "string", [1]);
    LeafOutcome(max, DateTime([0x80]), "dateTime.iso8601", [0x80]);
    AsciiIsText([CR]);
    assert NormalizeEnds([CR]) == [LF] by { assert [CR][1..] == [] && NormalizeEnds([]) == []; }
    assert IsControl([1][0]);
    assert Utf8.Legal([LF]) by { assert [LF][1..] == [] && [LF][..1] == [LF]; }
  }

  /** Whatever text was parsed, the delivered value printed and parsed again is the same value. */
  lemma {:induction false} ReparsedIsSame(max: nat, bs: seq<byte>)
    requires ParseValueText(max, bs).Ok?
    ensures var v := ParseValueText(max, bs).value;
            Serializable(v) && ParseValueText(max, ValueText(v)) == Ok(v)
  {
    hide ParseXml, ValueText, ConvertValue;
    ParsedIsPrintable(bs);
    ConvertSound(max, ParseXml(bs).value);
    RoundTrip(max, ParseValueText(max, bs).value);
  }
}
