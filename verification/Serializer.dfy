/**
 The printing side of xmlrpc_serialize.c, written step by step into an output block, against the
 documents of the value and message model.
 */
module Serializer {
  import opened Bytes
  import opened Xml
  import opened Values
  import opened Messages
  import Base64
  import Codec

  const SMALL_BUFFER_SZ := 128

  /** escapedSize */
  method EscapedSize(chars: seq<byte>) returns (size: nat)
    ensures size == |Escape(chars)|
  {
    size := 0;
    assert chars[0..] == chars;
    for i := 0 to |chars|
      invariant size + |Escape(chars[i..])| == |Escape(chars)|
    {
      assert chars[i..][1..] == chars[i + 1..];
      if chars[i] == LT {
        size := size + 4;
      } else if chars[i] == GT {
        size := size + 4;
      } else if chars[i] == AMP {
        size := size + 5;
      } else {
        size := size + 1;
      }
    }
  }

  method Copy(text: seq<byte>, buffer: array<byte>, at: nat)
    requires at + |text| <= buffer.Length
    modifies buffer
    ensures buffer[..at + |text|] == old(buffer[..at]) + text
  {
    forall k | 0 <= k < |text| {
      buffer[at + k] := text[k];
    }
  }

  /** escapeForXml: the size computed first is exactly the size written. */
  method EscapeForXml(chars: seq<byte>) returns (escaped: seq<byte>)
    ensures escaped == Escape(chars)
  {
    hide Escape;
    var size := EscapedSize(chars);
    var buffer := new byte[size];
    var p: nat := 0;
    assert chars[0..] == chars;
    for i := 0 to |chars|
      invariant p <= size && buffer[..p] + Escape(chars[i..]) == Escape(chars)
    {
      EscapeStep(buffer[..p], chars, i);
      if chars[i] == LT {
        Copy([AMP, 108, 116, 59], buffer, p);
        p := p + 4;
      } else if chars[i] == GT {
        Copy([AMP, 103, 116, 59], buffer, p);
        p := p + 4;
      } else if chars[i] == AMP {
        Copy([AMP, 97, 109, 112, 59], buffer, p);
        p := p + 5;
      } else {
        Copy([chars[i]], buffer, p);
        p := p + 1;
      }
    }
    NothingToEscape(chars[|chars|..]);
    assert |buffer[..p]| == |Escape(chars)|;
    assert p == size;
    return buffer[..];
  }

  lemma {:induction false} NothingToEscape(chars: seq<byte>)
    requires chars == []
    ensures Escape(chars) == []
  {
  }

  lemma {:induction false} EscapeStep(done: seq<byte>, chars: seq<byte>, i: nat)
    requires i < |chars|
    ensures |Escape(chars[i..])| >= |EscapeByte(chars[i])|
    ensures done + Escape(chars[i..]) == done + EscapeByte(chars[i]) + Escape(chars[i + 1..])
  {
    assert chars[i..][1..] == chars[i + 1..];
  }

  /** The memory block the serializer appends to. */
  class Output {
    var text: seq<byte>

    constructor ()
      ensures text == []
    {
      text := [];
    }

    /** format_out: prints through a small buffer, so what it prints must fit there. */
    method FormatOut(s: seq<byte>)
      requires |s| < SMALL_BUFFER_SZ - 1
      modifies this
      ensures text == old(text) + s
    {
      text := text + s;
    }

    /** XMLRPC_MEMBLOCK_APPEND */
    method Append(s: seq<byte>)
      modifies this
      ensures text == old(text) + s
    {
      text := text + s;
    }

    /** serializeUtf8MemBlock */
    method Utf8Text(s: seq<byte>)
      modifies this
      ensures text == old(text) + Escape(s)
    {
      var escaped := EscapeForXml(s);
      Append(escaped);
    }
  }

  // ---------------------------------------------------------------- the text of documents

  lemma {:induction false} RenderOne(name: string, child: Node)
    ensures Render(Elem(name, [child])) == OpenTag(name) + Render(child) + CloseTag(name)
  {
    assert [child][1..] == [];
    assert RenderAll([]) == [];
    assert RenderAll([child]) == Render(child);
  }

  lemma {:induction false} RenderMore(n: Node, ns: seq<Node>)
    ensures RenderAll([n] + ns) == Render(n) + RenderAll(ns)
  {
    assert ([n] + ns)[1..] == ns;
  }

  lemma {:induction false} RenderElem(name: string, content: seq<Node>)
    ensures Render(Elem(name, content)) == OpenTag(name) + RenderAll(content) + CloseTag(name)
  {
  }

  predicate Plain(s: seq<byte>) { LT !in s && GT !in s && AMP !in s }

  lemma {:induction false} EscapePlain(s: seq<byte>)
    requires Plain(s)
    ensures Escape(s) == s
  {
    if s != [] {
      EscapePlain(s[1..]);
    }
  }

  lemma {:induction false} RenderBreak()
    ensures Render(BREAK) == CRLF
  {
    EscapePlain(CRLF);
  }

  lemma {:induction false} DecimalPlain(i: int32)
    ensures Plain(Decimal(i)) && |Decimal(i)| <= 11
  {
    var n: nat := if i < 0 then -(i as int) else i;
    DigitsRead(n);
    forall k | 0 <= k < |Digits(n)| ensures Digits(n)[k] !in [LT, GT, AMP] {
      assert IsDigit(Digits(n)[k]);
    }
    assert Pow10(9) == 1_000_000_000 by {
      assert Pow10(3) == 1000 && Pow10(6) == 1_000_000;
    }
    DigitsLength(n, 10);
  }

  function Pow10(k: nat): nat { if k == 0 then 1 else 10 * Pow10(k - 1) }

  lemma {:induction false} DigitsLength(n: nat, k: nat)
    requires k >= 1 && n < Pow10(k)
    ensures |Digits(n)| <= k
  {
    if n >= 10 {
      assert k > 1 by {
        assert Pow10(0) == 1;
      }
      DigitsLength(n / 10, k - 1);
    }
  }

  lemma {:induction false} EncodingPlain(bin: seq<byte>)
    ensures Plain(CRLF + Base64.Encoded(bin, true))
  {
    if bin != [] {
      LinesPlain(bin);
    }
  }

  lemma {:induction false} LinesPlain(bin: seq<byte>)
    ensures Plain(Base64.JoinLines(Base64.Lines(bin), true))
  {
    hide Base64.Rfc4648;
    if bin != [] {
      var left := if |bin| > Base64.MAXBIN then Base64.MAXBIN else |bin|;
      Base64.LinesStep(bin, left, true);
      RfcPlain(bin[..left]);
      LinesPlain(bin[left..]);
    } else {
      Base64.NoLines(true);
    }
  }

  lemma {:induction false} RfcPlain(bin: seq<byte>)
    ensures Plain(Base64.Rfc4648(bin))
  {
    hide Base64.ToAscii, Base64.First, Base64.Second, Base64.Third, Base64.Fourth;
    forall s: Base64.sextet ensures Base64.ToAscii(s) !in [AMP, LT, GT] { Base64.Alphabet(s); }
    if |bin| >= 3 {
      RfcPlain(bin[3..]);
    }
  }

  /** The text between the value tags, spelled out. */
  function InnerText(v: Value): seq<byte>
    requires Serializable(v)
  {
    match v
    case Int(i) => OpenTag("i4") + Decimal(i) + CloseTag("i4")
    case Bool(b) => OpenTag("boolean") + Decimal(if b then 1 else 0) + CloseTag("boolean")
    case Str(s) => OpenTag("string") + Escape(s) + CloseTag("string")
    case DateTime(s) => OpenTag("dateTime.iso8601") + Escape(s) + CloseTag("dateTime.iso8601")
    case Binary(data) => OpenTag("base64") + CRLF + Base64.Encoded(data, true) + CloseTag("base64")
    case Nil => EmptyTag("nil")
    case Array(items) =>
      OpenTag("array") + OpenTag("data") + CRLF + RenderAll(DocItems(items)) + CloseTag("data") + CloseTag("array")
    case Struct(ms) => OpenTag("struct") + CRLF + RenderAll(DocMembers(ms)) + CloseTag("struct")
  }

  lemma {:induction false} DocText(v: Value)
    requires Serializable(v)
    ensures Render(Doc(v)) == OpenTag("value") + InnerText(v) + CloseTag("value")
  {
    hide OpenTag, CloseTag, EmptyTag, Escape, Render, RenderAll, Base64.Encoded, Decimal;
    var inner := Doc(v).content[0];
    RenderOne("value", inner);
    RenderBreak();
    match v
    case Int(i) => DecimalPlain(i); LeafText("i4", Decimal(i)); EscapePlain(Decimal(i));
    case Bool(b) =>
      var n := if b then 1 else 0;
      DecimalPlain(n); LeafText("boolean", Decimal(n)); EscapePlain(Decimal(n));
    case Str(s) => LeafText("string", s);
    case DateTime(s) => LeafText("dateTime.iso8601", s);
    case Binary(data) =>
      var text := CRLF + Base64.Encoded(data, true);
      EncodingPlain(data); LeafText("base64", text); EscapePlain(text);
      assert OpenTag("base64") + text == OpenTag("base64") + CRLF + Base64.Encoded(data, true);
    case Nil => NilText();
    case Array(items) =>
      RenderOne("array", Elem("data", [BREAK] + DocItems(items)));
      RenderElem("data", [BREAK] + DocItems(items));
      RenderMore(BREAK, DocItems(items));
      ArrayText(OpenTag("array"), OpenTag("data"), RenderAll(DocItems(items)), CloseTag("data"), CloseTag("array"));
    case Struct(ms) =>
      RenderElem("struct", [BREAK] + DocMembers(ms));
      RenderMore(BREAK, DocMembers(ms));
      assert OpenTag("struct") + (CRLF + RenderAll(DocMembers(ms))) == OpenTag("struct") + CRLF + RenderAll(DocMembers(ms));
  }

  lemma {:induction false} ArrayText(a: seq<byte>, b: seq<byte>, c: seq<byte>, d: seq<byte>, e: seq<byte>)
    ensures a + (b + (CRLF + c) + d) + e == a + b + CRLF + c + d + e
  {
  }

  lemma {:induction false} NilText()
    ensures Render(SelfClosing("nil")) == EmptyTag("nil")
  {
  }

  lemma {:induction false} LeafText(name: string, text: seq<byte>)
    ensures Render(Leaf(name, text)) == OpenTag(name) + Escape(text) + CloseTag(name)
  {
    RenderOne(name, Text(text));
  }

  /** What one item or member adds to the text. */
  lemma {:induction false} ItemText(items: seq<Value>, i: nat)
    requires i < |items| && forall k | i <= k < |items| :: Serializable(items[k])
    ensures RenderAll(DocItems(items[i..])) == Render(Doc(items[i])) + CRLF + RenderAll(DocItems(items[i + 1..]))
  {
    hide Render, RenderAll, Serializable;
    var rest := items[i..];
    assert rest[1..] == items[i + 1..];
    RenderBreak();
    RenderMore(BREAK, DocItems(rest[1..]));
    RenderMore(Doc(rest[0]), [BREAK] + DocItems(rest[1..]));
    assert DocItems(rest) == [Doc(rest[0])] + ([BREAK] + DocItems(rest[1..]));
  }

  /** One turn of the loop in xmlrpc_serialize_array leaves the sum of what is printed and what is not. */
  lemma {:induction false} ItemTurn(printed: seq<byte>, items: seq<Value>, i: nat)
    requires i < |items| && forall k | 0 <= k < |items| :: Serializable(items[k])
    ensures printed + RenderAll(DocItems(items[i..]))
         == printed + Render(Doc(items[i])) + CRLF + RenderAll(DocItems(items[i + 1..]))
  {
    hide Render, RenderAll, Doc, DocItems, Serializable;
    ItemText(items, i);
    assert printed + (Render(Doc(items[i])) + CRLF + RenderAll(DocItems(items[i + 1..])))
        == printed + Render(Doc(items[i])) + CRLF + RenderAll(DocItems(items[i + 1..]));
  }

  /** The end of the loop. */
  lemma {:induction false} ArrayEnd(printed: seq<byte>, items: seq<Value>)
    requires Serializable(Array(items))
    ensures printed + (OpenTag("array") + OpenTag("data") + CRLF) + RenderAll(DocItems(items))
            + (CloseTag("data") + CloseTag("array")) == printed + InnerText(Array(items))
  {
    hide RenderAll, DocItems, OpenTag, CloseTag;
    var head, tail := OpenTag("array") + OpenTag("data") + CRLF, CloseTag("data") + CloseTag("array");
    assert InnerText(Array(items)) == head + RenderAll(DocItems(items)) + tail;
  }

  function MemberText(m: Member): seq<byte>
    requires Serializable(m.value)
  {
    OpenTag("member") + OpenTag("name") + Escape(m.key) + CloseTag("name") + CRLF + Render(Doc(m.value)) + CloseTag("member")
  }

  lemma {:induction false} MemberRenders(m: Member)
    requires Serializable(m.value)
    ensures Render(DocMember(m)) == MemberText(m)
  {
    hide Render, RenderAll, OpenTag, CloseTag, Escape, Doc, Serializable;
    var name, value := Leaf("name", m.key), Doc(m.value);
    RenderElem("member", [name, BREAK, value]);
    assert [name, BREAK, value] == [name] + ([BREAK] + ([value] + []));
    RenderMore(name, [BREAK] + ([value] + []));
    RenderMore(BREAK, [value] + []);
    RenderMore(value, []);
    RenderNothing();
    RenderBreak();
    LeafText("name", m.key);
  }

  lemma {:induction false} RenderNothing()
    ensures RenderAll([]) == []
  {
  }

  lemma {:induction false} MemberStep(ms: seq<Member>, i: nat)
    requires i < |ms| && forall k | i <= k < |ms| :: Serializable(ms[k].value)
    ensures RenderAll(DocMembers(ms[i..])) == MemberText(ms[i]) + CRLF + RenderAll(DocMembers(ms[i + 1..]))
  {
    hide Render, RenderAll, Serializable, MemberText;
    var rest := ms[i..];
    assert rest[1..] == ms[i + 1..];
    RenderBreak();
    MemberRenders(rest[0]);
    RenderMore(BREAK, DocMembers(rest[1..]));
    RenderMore(DocMember(rest[0]), [BREAK] + DocMembers(rest[1..]));
    assert DocMembers(rest) == [DocMember(rest[0])] + ([BREAK] + DocMembers(rest[1..]));
  }

  // ---------------------------------------------------------------- serializing

  /** An element that holds a text: open tag, escaped text, close tag. */
  method SerializeText(output: Output, name: string, text: seq<byte>)
    requires |name| < 100
    modifies output
    ensures output.text == old(output.text) + (OpenTag(name) + Escape(text) + CloseTag(name))
  {
    hide OpenTag, CloseTag, Escape;
    output.FormatOut(OpenTag(name));
    output.Utf8Text(text);
    output.FormatOut(CloseTag(name));
  }

  /** xmlrpc_serialize_value: it appends the text of the value's document, and faults exactly when
      a C pointer is somewhere inside. */
  method SerializeValue(output: Output, v: Value) returns (fault: Option<int>)
    modifies output
    ensures fault == if Serializable(v) then None else Some(INTERNAL_ERROR)
    ensures Serializable(v) ==> output.text == old(output.text) + Render(Doc(v))
    decreases v, 2
  {
    hide OpenTag, CloseTag, Render, Doc, InnerText, Serializable;
    output.FormatOut(OpenTag("value"));
    fault := SerializeInner(output, v);
    if fault.Some? {
      return;
    }
    output.FormatOut(CloseTag("value"));
    DocText(v);
    assert old(output.text) + (OpenTag("value") + InnerText(v) + CloseTag("value"))
        == old(output.text) + OpenTag("value") + InnerText(v) + CloseTag("value");
  }

  /** The switch on the value's type. */
  method SerializeInner(output: Output, v: Value) returns (fault: Option<int>)
    modifies output
    ensures fault == if Serializable(v) then None else Some(INTERNAL_ERROR)
    ensures Serializable(v) ==> output.text == old(output.text) + InnerText(v)
    decreases v, 1
  {
    hide OpenTag, CloseTag, EmptyTag, Escape, RenderAll, Decimal, Base64.Encoded, DocItems, DocMembers;
    fault := None;
    match v {
      case Int(i) =>
        DecimalPlain(i);
        output.FormatOut(OpenTag("i4") + Decimal(i) + CloseTag("i4"));
      case Bool(b) =>
        DecimalPlain(if b then 1 else 0);
        output.FormatOut(OpenTag("boolean") + Decimal(if b then 1 else 0) + CloseTag("boolean"));
      case Str(s) =>
        SerializeText(output, "string", s);
      case DateTime(s) =>
        SerializeText(output, "dateTime.iso8601", s);
      case Binary(data) =>
        SerializeBase64(output, data);
      case Nil =>
        output.FormatOut(EmptyTag("nil"));
      case CPtr(_) =>
        fault := Some(INTERNAL_ERROR);
      case Array(items) =>
        fault := SerializeArray(output, items);
      case Struct(ms) =>
        fault := SerializeStruct(output, ms);
    }
  }

  /** xmlrpc_serialize_base64_data between its tags; the encoded text needs no escaping. */
  method SerializeBase64(output: Output, data: seq<byte>)
    modifies output
    ensures output.text == old(output.text) + InnerText(Binary(data))
  {
    hide OpenTag, CloseTag, Base64.Encoded;
    output.FormatOut(OpenTag("base64") + CRLF);
    var encoded := Base64.Encode(data, true);
    output.Append(encoded);
    output.FormatOut(CloseTag("base64"));
    assert InnerText(Binary(data)) == OpenTag("base64") + CRLF + encoded + CloseTag("base64");
  }

  method SerializeArray(output: Output, items: seq<Value>) returns (fault: Option<int>)
    modifies output
    ensures fault == if Serializable(Array(items)) then None else Some(INTERNAL_ERROR)
    ensures Serializable(Array(items)) ==> output.text == old(output.text) + InnerText(Array(items))
    decreases items, 0
  {
    hide OpenTag, CloseTag, Render, RenderAll, Doc, DocItems, InnerText;
    var head, tail := OpenTag("array") + OpenTag("data") + CRLF, CloseTag("data") + CloseTag("array");
    output.FormatOut(head);
    ghost var begun := output.text;
    assert items[0..] == items;
    for i := 0 to |items|
      invariant forall k | 0 <= k < i :: Serializable(items[k])
      invariant Serializable(Array(items)) ==>
                  output.text + RenderAll(DocItems(items[i..])) == begun + RenderAll(DocItems(items))
    {
      ghost var before := output.text;
      fault := SerializeValue(output, items[i]);
      if fault.Some? {
        return;
      }
      output.FormatOut(CRLF);
      if Serializable(Array(items)) {
        ItemTurn(before, items, i);
      }
    }
    NoItems(items[|items|..]);
    assert Serializable(Array(items));
    assert output.text == begun + RenderAll(DocItems(items));
    output.FormatOut(tail);
    ArrayEnd(old(output.text), items);
    fault := None;
  }

  lemma {:induction false} NoItems(items: seq<Value>)
    requires items == []
    ensures RenderAll(DocItems(items)) == []
  {
  }

  lemma {:induction false} NoMembers(ms: seq<Member>)
    requires ms == []
    ensures RenderAll(DocMembers(ms)) == []
  {
  }

  /** One turn of the loop in xmlrpc_serialize_struct. */
  method SerializeMember(output: Output, m: Member) returns (fault: Option<int>)
    modifies output
    ensures fault == if Serializable(m.value) then None else Some(INTERNAL_ERROR)
    ensures Serializable(m.value) ==> output.text == old(output.text) + (MemberText(m) + CRLF)
    decreases m, 3
  {
    hide OpenTag, CloseTag, Escape, Render, Doc, Serializable;
    output.FormatOut(OpenTag("member") + OpenTag("name"));
    output.Utf8Text(m.key);
    output.FormatOut(CloseTag("name") + CRLF);
    fault := SerializeValue(output, m.value);
    if fault.Some? {
      return;
    }
    output.FormatOut(CloseTag("member") + CRLF);
  }

  /** xmlrpc_serialize_struct */
  method SerializeStruct(output: Output, ms: seq<Member>) returns (fault: Option<int>)
    modifies output
    ensures fault == if Serializable(Struct(ms)) then None else Some(INTERNAL_ERROR)
    ensures Serializable(Struct(ms)) ==> output.text == old(output.text) + InnerText(Struct(ms))
    decreases ms, 0
  {
    hide OpenTag, CloseTag, RenderAll, DocMembers, MemberText;
    var head := OpenTag("struct") + CRLF;
    output.FormatOut(head);
    ghost var begun := output.text;
    assert ms[0..] == ms;
    for i := 0 to |ms|
      invariant forall k | 0 <= k < i :: Serializable(ms[k].value)
      invariant Serializable(Struct(ms)) ==>
                  output.text + RenderAll(DocMembers(ms[i..])) == begun + RenderAll(DocMembers(ms))
    {
      ghost var before := output.text;
      fault := SerializeMember(output, ms[i]);
      if fault.Some? {
        return;
      }
      if Serializable(Struct(ms)) {
        MemberStep(ms, i);
        assert before + (MemberText(ms[i]) + CRLF + RenderAll(DocMembers(ms[i + 1..])))
            == before + (MemberText(ms[i]) + CRLF) + RenderAll(DocMembers(ms[i + 1..]));
      }
    }
    NoMembers(ms[|ms|..]);
    assert Serializable(Struct(ms));
    assert output.text == begun + RenderAll(DocMembers(ms));
    output.FormatOut(CloseTag("struct"));
    assert InnerText(Struct(ms)) == head + RenderAll(DocMembers(ms)) + CloseTag("struct");
    assert old(output.text) + head + RenderAll(DocMembers(ms)) + CloseTag("struct")
        == old(output.text) + (head + RenderAll(DocMembers(ms)) + CloseTag("struct"));
    fault := None;
  }

  // ---------------------------------------------------------------- messages

  lemma {:induction false} ParamStep(params: seq<Value>, i: nat)
    requires i < |params| && forall k | i <= k < |params| :: Serializable(params[k])
    ensures RenderAll(DocParamList(params[i..]))
         == OpenTag("param") + Render(Doc(params[i])) + CloseTag("param") + CRLF + RenderAll(DocParamList(params[i + 1..]))
  {
    hide Render, RenderAll, Serializable, Doc, OpenTag, CloseTag;
    var rest := params[i..];
    assert rest[1..] == params[i + 1..];
    var first := Elem("param", [Doc(rest[0])]);
    RenderBreak();
    RenderOne("param", Doc(rest[0]));
    RenderMore(BREAK, DocParamList(rest[1..]));
    RenderMore(first, [BREAK] + DocParamList(rest[1..]));
    assert DocParamList(rest) == [first] + ([BREAK] + DocParamList(rest[1..]));
  }

  lemma {:induction false} ParamsText(params: seq<Value>)
    requires AllSerializable(params)
    ensures Render(DocParams(params)) == OpenTag("params") + CRLF + RenderAll(DocParamList(params)) + CloseTag("params")
  {
    hide Render, RenderAll, OpenTag, CloseTag;
    RenderElem("params", [BREAK] + DocParamList(params));
    RenderMore(BREAK, DocParamList(params));
    RenderBreak();
    assert OpenTag("params") + (CRLF + RenderAll(DocParamList(params))) == OpenTag("params") + CRLF + RenderAll(DocParamList(params));
  }

  /** xmlrpc_serialize_params */
  method SerializeParams(output: Output, params: seq<Value>) returns (fault: Option<int>)
    modifies output
    ensures fault == if AllSerializable(params) then None else Some(INTERNAL_ERROR)
    ensures AllSerializable(params) ==> output.text == old(output.text) + (Render(DocParams(params)) + CRLF)
  {
    hide OpenTag, CloseTag, Render, RenderAll, Doc, DocParamList;
    output.FormatOut(OpenTag("params") + CRLF);
    ghost var begun := output.text;
    assert params[0..] == params;
    for i := 0 to |params|
      invariant forall k | 0 <= k < i :: Serializable(params[k])
      invariant AllSerializable(params) ==>
                  output.text + RenderAll(DocParamList(params[i..])) == begun + RenderAll(DocParamList(params))
    {
      ghost var before := output.text;
      output.FormatOut(OpenTag("param"));
      fault := SerializeValue(output, params[i]);
      if fault.Some? {
        return;
      }
      output.FormatOut(CloseTag("param") + CRLF);
      if AllSerializable(params) {
        ParamStep(params, i);
        ghost var piece := OpenTag("param") + Render(Doc(params[i])) + CloseTag("param") + CRLF;
        assert output.text == before + piece;
        assert before + (piece + RenderAll(DocParamList(params[i + 1..])))
            == before + piece + RenderAll(DocParamList(params[i + 1..]));
      }
    }
    NoParams(params[|params|..]);
    assert output.text == begun + RenderAll(DocParamList(params));
    output.FormatOut(CloseTag("params") + CRLF);
    ParamsText(params);
    assert old(output.text) + (OpenTag("params") + CRLF) + RenderAll(DocParamList(params)) + (CloseTag("params") + CRLF)
        == old(output.text) + (OpenTag("params") + CRLF + RenderAll(DocParamList(params)) + CloseTag("params") + CRLF);
    fault := None;
  }

  lemma {:induction false} NoParams(params: seq<Value>)
    requires params == []
    ensures RenderAll(DocParamList(params)) == []
  {
  }

  lemma {:induction false} PrologueLength()
    ensures |Prologue()| < 100
  {
  }

  lemma {:induction false} ThreeLines(name: string, first: Node, second: Node)
    ensures Render(Elem(name, [BREAK, first, BREAK, second, BREAK]))
         == OpenTag(name) + CRLF + Render(first) + CRLF + (Render(second) + CRLF) + CloseTag(name)
  {
    hide Render, RenderAll, OpenTag, CloseTag;
    RenderElem(name, [BREAK, first, BREAK, second, BREAK]);
    RenderBreak();
    RenderNothing();
    RenderMore(BREAK, []);
    RenderMore(second, [BREAK] + []);
    RenderMore(BREAK, [second] + ([BREAK] + []));
    RenderMore(first, [BREAK] + ([second] + ([BREAK] + [])));
    RenderMore(BREAK, [first] + ([BREAK] + ([second] + ([BREAK] + []))));
    assert [BREAK] + ([first] + ([BREAK] + ([second] + ([BREAK] + [])))) == [BREAK, first, BREAK, second, BREAK];
  }

  lemma {:induction false} OneLine(name: string, inner: Node)
    ensures Render(Elem(name, [BREAK, inner, BREAK])) == OpenTag(name) + CRLF + (Render(inner) + CRLF) + CloseTag(name)
  {
    hide Render, RenderAll, OpenTag, CloseTag;
    RenderElem(name, [BREAK, inner, BREAK]);
    RenderBreak();
    RenderNothing();
    RenderMore(BREAK, []);
    RenderMore(inner, [BREAK] + []);
    RenderMore(BREAK, [inner] + ([BREAK] + []));
    assert [BREAK] + ([inner] + ([BREAK] + [])) == [BREAK, inner, BREAK];
  }

  /** A message is written in pieces: prologue, head, body, tail. */
  lemma {:induction false} Pieces(before: seq<byte>, head: seq<byte>, body: seq<byte>, tail: seq<byte>, n: Node)
    requires head + body + tail == Render(n) + CRLF
    ensures before + Prologue() + head + body + tail == before + MessageText(n)
  {
    hide Render, Prologue;
    assert before + Prologue() + head + body + tail == before + (Prologue() + (head + body + tail));
  }

  /** xmlrpc_serialize_call: the text it writes is the message text of the call's document. */
  method SerializeCall(output: Output, methodName: seq<byte>, params: seq<Value>) returns (fault: Option<int>)
    modifies output
    ensures fault == if AllSerializable(params) then None else Some(INTERNAL_ERROR)
    ensures AllSerializable(params) ==> output.text == old(output.text) + MessageText(DocCall(methodName, params))
  {
    hide OpenTag, CloseTag, Escape, Render, DocParams, Serializable, Prologue, MessageText;
    PrologueLength();
    output.FormatOut(Prologue());
    output.FormatOut(OpenTag("methodCall") + CRLF + OpenTag("methodName"));
    var escaped := EscapeForXml(methodName);
    output.Append(escaped);
    output.FormatOut(CloseTag("methodName") + CRLF);
    ghost var begun := output.text;
    fault := SerializeParams(output, params);
    if fault.Some? {
      return;
    }
    output.FormatOut(CloseTag("methodCall") + CRLF);
    LeafText("methodName", methodName);
    ThreeLines("methodCall", Leaf("methodName", methodName), DocParams(params));
    ghost var head := OpenTag("methodCall") + CRLF + OpenTag("methodName") + Escape(methodName) + CloseTag("methodName") + CRLF;
    ghost var body, tail := Render(DocParams(params)) + CRLF, CloseTag("methodCall") + CRLF;
    assert begun == old(output.text) + Prologue() + head;
    assert head + body + tail == Render(DocCall(methodName, params)) + CRLF;
    Pieces(old(output.text), head, body, tail, DocCall(methodName, params));
  }

  /** xmlrpc_serialize_response */
  method SerializeResponse(output: Output, v: Value) returns (fault: Option<int>)
    modifies output
    ensures fault == if Serializable(v) then None else Some(INTERNAL_ERROR)
    ensures Serializable(v) ==> output.text == old(output.text) + MessageText(DocResponse(v))
  {
    hide OpenTag, CloseTag, Render, Doc, Serializable, Prologue, MessageText;
    PrologueLength();
    output.FormatOut(Prologue());
    var head := OpenTag("methodResponse") + CRLF + OpenTag("params") + CRLF + OpenTag("param");
    var tail := CloseTag("param") + CRLF + CloseTag("params") + CRLF + CloseTag("methodResponse") + CRLF;
    output.FormatOut(head);
    fault := SerializeValue(output, v);
    if fault.Some? {
      return;
    }
    output.FormatOut(tail);
    RenderOne("param", Doc(v));
    OneLine("params", Elem("param", [Doc(v)]));
    OneLine("methodResponse", Elem("params", [BREAK, Elem("param", [Doc(v)]), BREAK]));
    assert head + Render(Doc(v)) + tail == Render(DocResponse(v)) + CRLF;
    Pieces(old(output.text), head, Render(Doc(v)), tail, DocResponse(v));
  }

  lemma {:induction false} FaultText(code: int32, text: seq<byte>)
    ensures Serializable(FaultValue(code, text))
    ensures OpenTag("methodResponse") + CRLF + OpenTag("fault") + CRLF + Render(Doc(FaultValue(code, text)))
            + (CRLF + CloseTag("fault") + CRLF + CloseTag("methodResponse") + CRLF)
         == Render(DocFault(code, text)) + CRLF
  {
    hide OpenTag, CloseTag, Render, Doc, FaultValue;
    FaultValueIs(code, text);
    var v := FaultValue(code, text);
    OneLine("fault", Doc(v));
    OneLine("methodResponse", Elem("fault", [BREAK, Doc(v), BREAK]));
  }

  /** xmlrpc_serialize_fault */
  method SerializeFault(output: Output, code: int32, text: seq<byte>)
    modifies output
    ensures output.text == old(output.text) + MessageText(DocFault(code, text))
  {
    hide OpenTag, CloseTag, Render, Doc, Prologue, FaultValue, MessageText;
    var v := FaultValue(code, text);
    FaultValueIs(code, text);
    PrologueLength();
    output.FormatOut(Prologue());
    var head := OpenTag("methodResponse") + CRLF + OpenTag("fault") + CRLF;
    var tail := CRLF + CloseTag("fault") + CRLF + CloseTag("methodResponse") + CRLF;
    output.FormatOut(head);
    var fault := SerializeValue(output, v);
    output.FormatOut(tail);
    FaultText(code, text);
    Pieces(old(output.text), head, Render(Doc(v)), tail, DocFault(code, text));
  }
}
