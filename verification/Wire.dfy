/**
 The text on the wire, letter by letter: what xmlrpc_serialize.c prints for values and messages, as
 one would write it down without documents and tags.
 */
module Wire {
  import opened Bytes
  import opened Messages
  import opened Serializer
  import opened Values
  import opened Xml
  import Base64

  /** Text with the three characters replaced that markup reserves. */
  function Escaped(s: seq<byte>): seq<byte>
  {
    if s == [] then []
    else
      (if s[0] == '<' as int then Ascii("&lt;")
       else if s[0] == '>' as int then Ascii("&gt;")
       else if s[0] == '&' as int then Ascii("&amp;")
       else [s[0]]) + Escaped(s[1..])
  }

  function ValueWire(v: Value): seq<byte>
    requires Serializable(v)
    decreases v, 1
  {
    Ascii("<value>")
    + (match v
       case Int(i) => Ascii("<i4>") + Decimal(i) + Ascii("</i4>")
       case Bool(b) => Ascii("<boolean>") + Ascii(if b then "1" else "0") + Ascii("</boolean>")
       case Str(s) => Ascii("<string>") + Escaped(s) + Ascii("</string>")
       case DateTime(s) => Ascii("<dateTime.iso8601>") + Escaped(s) + Ascii("</dateTime.iso8601>")
       case Binary(data) => Ascii("<base64>") + CRLF + Base64.Encoded(data, true) + Ascii("</base64>")
       case Nil => Ascii("<nil/>")
       case Array(items) => Ascii("<array><data>") + CRLF + ItemsWire(items) + Ascii("</data></array>")
       case Struct(ms) => Ascii("<struct>") + CRLF + MembersWire(ms) + Ascii("</struct>"))
    + Ascii("</value>")
  }

  function ItemsWire(items: seq<Value>): seq<byte>
    requires forall k | 0 <= k < |items| :: Serializable(items[k])
    decreases items, 0
  {
    if items == [] then [] else ValueWire(items[0]) + CRLF + ItemsWire(items[1..])
  }

  function MembersWire(ms: seq<Member>): seq<byte>
    requires forall k | 0 <= k < |ms| :: Serializable(ms[k].value)
    decreases ms, 0
  {
    if ms == [] then []
    else
      Ascii("<member><name>") + Escaped(ms[0].key) + Ascii("</name>") + CRLF
      + ValueWire(ms[0].value) + Ascii("</member>") + CRLF + MembersWire(ms[1..])
  }

  function ParamsWire(params: seq<Value>): seq<byte>
    requires AllSerializable(params)
  {
    if params == [] then []
    else Ascii("<param>") + ValueWire(params[0]) + Ascii("</param>") + CRLF + ParamsWire(params[1..])
  }

  function PrologueWire(): seq<byte> { Ascii("<?xml version=\"1.0\" encoding=\"UTF-8\"?>") + CRLF }

  /** A message: the prologue, then an element on lines of its own. */
  function MessageWire(open: string, content: seq<byte>, close: string): seq<byte>
  {
    PrologueWire() + (Ascii(open) + CRLF + content + Ascii(close)) + CRLF
  }

  function CallWire(methodName: seq<byte>, params: seq<Value>): seq<byte>
    requires AllSerializable(params)
  {
    var name := Ascii("<methodName>") + Escaped(methodName) + Ascii("</methodName>") + CRLF;
    var list := Ascii("<params>") + CRLF + ParamsWire(params) + Ascii("</params>") + CRLF;
    MessageWire("<methodCall>", name + list, "</methodCall>")
  }

  function ResponseWire(v: Value): seq<byte>
    requires Serializable(v)
  {
    var param := Ascii("<param>") + ValueWire(v) + Ascii("</param>") + CRLF;
    MessageWire("<methodResponse>", Ascii("<params>") + CRLF + param + Ascii("</params>") + CRLF, "</methodResponse>")
  }

  function FaultWire(code: int32, text: seq<byte>): seq<byte>
  {
    FaultValueIs(code, text);
    var value := ValueWire(FaultValue(code, text)) + CRLF;
    MessageWire("<methodResponse>", Ascii("<fault>") + CRLF + value + Ascii("</fault>") + CRLF, "</methodResponse>")
  }

  // ---------------------------------------------------------------- tags are spelled

  lemma {:induction false} AsciiAppend(a: string, b: string)
    ensures Ascii(a + b) == Ascii(a) + Ascii(b)
  {
  }

  lemma {:induction false} TagWire(name: string)
    ensures OpenTag(name) == Ascii("<" + name + ">")
    ensures CloseTag(name) == Ascii("</" + name + ">")
    ensures EmptyTag(name) == Ascii("<" + name + "/>")
  {
  }

  lemma {:induction false} EscapedIs(s: seq<byte>)
    ensures Escape(s) == Escaped(s)
  {
    if s != [] {
      EscapedIs(s[1..]);
      EntitiesSpelled();
    }
  }

  lemma {:induction false} EntitiesSpelled()
    ensures Ascii("&lt;") == [AMP, 108, 116, 59] && Ascii("&gt;") == [AMP, 103, 116, 59]
    ensures Ascii("&amp;") == [AMP, 97, 109, 112, 59]
  {
  }

  lemma {:induction false} BooleanSpelled(b: bool)
    ensures Decimal(if b then 1 else 0) == Ascii(if b then "1" else "0")
  {
  }

  lemma {:induction false} TagsOf(name: string, open: string, close: string)
    requires open == "<" + name + ">" && close == "</" + name + ">"
    ensures OpenTag(name) == Ascii(open) && CloseTag(name) == Ascii(close)
  {
    TagWire(name);
  }

  lemma {:induction false} SpellScalars()
    ensures OpenTag("i4") == Ascii("<i4>") && CloseTag("i4") == Ascii("</i4>")
    ensures OpenTag("boolean") == Ascii("<boolean>") && CloseTag("boolean") == Ascii("</boolean>")
    ensures OpenTag("string") == Ascii("<string>") && CloseTag("string") == Ascii("</string>")
    ensures OpenTag("base64") == Ascii("<base64>") && CloseTag("base64") == Ascii("</base64>")
    ensures EmptyTag("nil") == Ascii("<nil/>")
  {
    hide OpenTag, CloseTag, EmptyTag, Ascii;
    TagsOf("i4", "<i4>", "</i4>");
    TagsOf("boolean", "<boolean>", "</boolean>");
    TagsOf("string", "<string>", "</string>");
    TagsOf("base64", "<base64>", "</base64>");
    TagWire("nil");
    assert "<" + "nil" + "/>" == "<nil/>";
  }

  lemma {:induction false} SpellValue()
    ensures OpenTag("value") == Ascii("<value>") && CloseTag("value") == Ascii("</value>")
    ensures OpenTag("dateTime.iso8601") == Ascii("<dateTime.iso8601>") && CloseTag("dateTime.iso8601") == Ascii("</dateTime.iso8601>")
    ensures OpenTag("struct") == Ascii("<struct>") && CloseTag("struct") == Ascii("</struct>")
  {
    hide OpenTag, CloseTag, Ascii;
    TagsOf("value", "<value>", "</value>");
    TagsOf("dateTime.iso8601", "<dateTime.iso8601>", "</dateTime.iso8601>");
    TagsOf("struct", "<struct>", "</struct>");
  }

  lemma {:induction false} SpellGroups()
    ensures OpenTag("array") + OpenTag("data") == Ascii("<array><data>")
    ensures CloseTag("data") + CloseTag("array") == Ascii("</data></array>")
    ensures OpenTag("member") + OpenTag("name") == Ascii("<member><name>")
    ensures CloseTag("name") == Ascii("</name>") && CloseTag("member") == Ascii("</member>")
  {
    hide OpenTag, CloseTag, Ascii;
    TagsOf("array", "<array>", "</array>");
    TagsOf("data", "<data>", "</data>");
    TagsOf("member", "<member>", "</member>");
    TagsOf("name", "<name>", "</name>");
    AsciiAppend("<array>", "<data>");
    AsciiAppend("</data>", "</array>");
    AsciiAppend("<member>", "<name>");
    assert "<array>" + "<data>" == "<array><data>" && "</data>" + "</array>" == "</data></array>";
    assert "<member>" + "<name>" == "<member><name>";
  }

  // ---------------------------------------------------------------- values

  /** The text printed for a value is its text on the wire. */
  lemma {:induction false} ValueIs(v: Value)
    requires Serializable(v)
    ensures Render(Doc(v)) == ValueWire(v)
    decreases v, 1
  {
    hide Render, RenderAll, Doc, DocItems, DocMembers, OpenTag, CloseTag, EmptyTag, Ascii, Escape, Escaped, Decimal, Base64.Encoded,
         ItemsWire, MembersWire;
    DocText(v);
    SpellValue();
    SpellScalars();
    SpellGroups();
    match v
    case Bool(b) => BooleanSpelled(b);
    case Str(s) => EscapedIs(s);
    case DateTime(s) => EscapedIs(s);
    case Array(items) =>
      ItemsAre(items);
      var data := RenderAll(DocItems(items));
      ArrayJoined(OpenTag("array"), OpenTag("data"), data, CloseTag("data"), CloseTag("array"));
    case Struct(ms) => MembersAre(ms);
    case _ =>
  }

  lemma {:induction false} ArrayJoined(a: seq<byte>, b: seq<byte>, c: seq<byte>, d: seq<byte>, e: seq<byte>)
    ensures a + b + CRLF + c + d + e == (a + b) + CRLF + c + (d + e)
  {
  }

  lemma {:induction false} ItemsAre(items: seq<Value>)
    requires forall k | 0 <= k < |items| :: Serializable(items[k])
    ensures RenderAll(DocItems(items)) == ItemsWire(items)
    decreases items, 0
  {
    hide Render, RenderAll, Doc, DocItems, ValueWire, Serializable;
    if items == [] {
      NoItems(items);
    } else {
      ItemText(items, 0);
      assert items[0..] == items;
      ValueIs(items[0]);
      ItemsAre(items[1..]);
    }
  }

  lemma {:induction false} MembersAre(ms: seq<Member>)
    requires forall k | 0 <= k < |ms| :: Serializable(ms[k].value)
    ensures RenderAll(DocMembers(ms)) == MembersWire(ms)
    decreases ms, 0
  {
    hide Render, RenderAll, Doc, DocMembers, ValueWire, Serializable, OpenTag, CloseTag, Ascii, Escape, Escaped;
    if ms == [] {
      NoMembers(ms);
    } else {
      MemberStep(ms, 0);
      assert ms[0..] == ms;
      SpellGroups();
      EscapedIs(ms[0].key);
      ValueIs(ms[0].value);
      MembersAre(ms[1..]);
    }
  }

  // ---------------------------------------------------------------- messages

  lemma {:induction false} PrologueIs()
    ensures Prologue() == PrologueWire()
  {
    hide Ascii;
    var inner := "?xml version=\"1.0\" encoding=\"UTF-8\"?";
    assert "<" + inner + ">" == "<?xml version=\"1.0\" encoding=\"UTF-8\"?>";
    TagWire(inner);
  }

  lemma {:induction false} SpellCall()
    ensures OpenTag("methodCall") == Ascii("<methodCall>") && CloseTag("methodCall") == Ascii("</methodCall>")
    ensures OpenTag("methodName") == Ascii("<methodName>") && CloseTag("methodName") == Ascii("</methodName>")
  {
    hide OpenTag, CloseTag, Ascii;
    TagsOf("methodCall", "<methodCall>", "</methodCall>");
    TagsOf("methodName", "<methodName>", "</methodName>");
  }

  lemma {:induction false} SpellParams()
    ensures OpenTag("params") == Ascii("<params>") && CloseTag("params") == Ascii("</params>")
    ensures OpenTag("param") == Ascii("<param>") && CloseTag("param") == Ascii("</param>")
  {
    hide OpenTag, CloseTag, Ascii;
    TagsOf("params", "<params>", "</params>");
    TagsOf("param", "<param>", "</param>");
  }

  lemma {:induction false} SpellResponse()
    ensures OpenTag("methodResponse") == Ascii("<methodResponse>") && CloseTag("methodResponse") == Ascii("</methodResponse>")
    ensures OpenTag("fault") == Ascii("<fault>") && CloseTag("fault") == Ascii("</fault>")
  {
    hide OpenTag, CloseTag, Ascii;
    TagsOf("methodResponse", "<methodResponse>", "</methodResponse>");
    TagsOf("fault", "<fault>", "</fault>");
  }

  lemma {:induction false} ParamsAre(params: seq<Value>)
    requires AllSerializable(params)
    ensures RenderAll(DocParamList(params)) == ParamsWire(params)
  {
    hide Render, RenderAll, Doc, DocParamList, ValueWire, Serializable, OpenTag, CloseTag, Ascii;
    if params == [] {
      NoParams(params);
    } else {
      ParamStep(params, 0);
      assert params[0..] == params;
      SpellParams();
      ValueIs(params[0]);
      ParamsAre(params[1..]);
    }
  }

  /** The text printed for a call. */
  lemma {:induction false} CallIs(methodName: seq<byte>, params: seq<Value>)
    requires AllSerializable(params)
    ensures MessageText(DocCall(methodName, params)) == CallWire(methodName, params)
  {
    hide Render, RenderAll, DocParams, DocParamList, OpenTag, CloseTag, Ascii, Escape, Escaped, Serializable, Prologue, PrologueWire,
         ParamsWire;
    PrologueIs();
    SpellCall();
    SpellParams();
    EscapedIs(methodName);
    LeafText("methodName", methodName);
    ParamsText(params);
    ParamsAre(params);
    ThreeLines("methodCall", Leaf("methodName", methodName), DocParams(params));
    Regroup(Ascii("<methodCall>"), Render(Leaf("methodName", methodName)), Render(DocParams(params)));
  }

  lemma {:induction false} Regroup(a: seq<byte>, b: seq<byte>, c: seq<byte>)
    ensures a + CRLF + b + CRLF + (c + CRLF) == a + CRLF + ((b + CRLF) + (c + CRLF))
  {
  }

  /** The text printed for a response. */
  lemma {:induction false} ResponseIs(v: Value)
    requires Serializable(v)
    ensures MessageText(DocResponse(v)) == ResponseWire(v)
  {
    hide Render, RenderAll, Doc, OpenTag, CloseTag, Ascii, Serializable, Prologue, PrologueWire, ValueWire;
    PrologueIs();
    SpellParams();
    SpellResponse();
    ValueIs(v);
    RenderOne("param", Doc(v));
    OneLine("params", Elem("param", [Doc(v)]));
    OneLine("methodResponse", Elem("params", [BREAK, Elem("param", [Doc(v)]), BREAK]));
  }

  /** The text printed for a fault. */
  lemma {:induction false} FaultIs(code: int32, text: seq<byte>)
    ensures MessageText(DocFault(code, text)) == FaultWire(code, text)
  {
    hide Render, RenderAll, Doc, OpenTag, CloseTag, Ascii, Escaped, Decimal, Serializable, Prologue, PrologueWire, ValueWire, FaultValue;
    FaultValueIs(code, text);
    var v := FaultValue(code, text);
    PrologueIs();
    SpellResponse();
    ValueIs(v);
    OneLine("fault", Doc(v));
    OneLine("methodResponse", Elem("fault", [BREAK, Doc(v), BREAK]));
  }
}
