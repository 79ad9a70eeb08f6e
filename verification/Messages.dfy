/**
 Calls, responses and fault responses: their documents, and what the message parser of
 xmlrpc_parse.c makes of a text.
 */
module Messages {
  import opened Bytes
  import opened Xml
  import opened Sax
  import opened Values
  import Utf8
  import Codec

  const LIMIT_EXCEEDED_ERROR := -509

  /** The adjustable resource limits. */
  datatype Limits = Limits(nesting: nat, xmlSize: nat)

  // ---------------------------------------------------------------- documents

  predicate AllSerializable(vs: seq<Value>) { forall k | 0 <= k < |vs| :: Serializable(vs[k]) }

  function DocParamList(params: seq<Value>): seq<Node>
    requires AllSerializable(params)
  {
    if params == [] then [] else [Elem("param", [Doc(params[0])]), BREAK] + DocParamList(params[1..])
  }

  function DocParams(params: seq<Value>): Node
    requires AllSerializable(params)
  {
    Elem("params", [BREAK] + DocParamList(params))
  }

  function DocCall(methodName: seq<byte>, params: seq<Value>): Node
    requires AllSerializable(params)
  {
    Elem("methodCall", [BREAK, Leaf("methodName", methodName), BREAK, DocParams(params), BREAK])
  }

  function DocResponse(v: Value): Node
    requires Serializable(v)
  {
    Elem("methodResponse", [BREAK, Elem("params", [BREAK, Elem("param", [Doc(v)]), BREAK]), BREAK])
  }

  /** The struct a fault is sent as. */
  function FaultValue(code: int32, text: seq<byte>): Value
  {
    Struct([Member(Ascii("faultCode"), Int(code)), Member(Ascii("faultString"), Str(text))])
  }

  function DocFault(code: int32, text: seq<byte>): Node
  {
    Elem("methodResponse", [BREAK, Elem("fault", [BREAK, Doc(FaultValue(code, text)), BREAK]), BREAK])
  }

  function Declaration(): seq<byte> { Ascii("?xml version=\"1.0\" encoding=\"UTF-8\"?") }

  /** XML_PROLOGUE */
  function Prologue(): seq<byte> { [LT] + Declaration() + [GT] + CRLF }

  function MessageText(n: Node): seq<byte>
  {
    Prologue() + Render(n) + CRLF
  }

  // ---------------------------------------------------------------- parsing calls

  datatype Call = Call(methodName: seq<byte>, params: seq<Value>)

  /** convert_params, past the check of its own element's name. */
  function ConvertParamList(nesting: nat, children: seq<XmlTree>): Result<seq<Value>>
  {
    if children == [] then Ok([])
    else if children[0].name != "param" || |children[0].children| != 1 then Fault(PARSE_ERROR)
    else match ConvertValue(nesting, children[0].children[0])
      case Fault(code) => Fault(code)
      case Ok(v) =>
        match ConvertParamList(nesting, children[1..])
        case Fault(code) => Fault(code)
        case Ok(vs) => Ok([v] + vs)
  }

  function ConvertParams(nesting: nat, t: XmlTree): Result<seq<Value>>
  {
    if t.name != "params" then Fault(PARSE_ERROR) else ConvertParamList(nesting, t.children)
  }

  /** parseMethodNameElement */
  function ParseMethodName(t: XmlTree): Result<seq<byte>>
  {
    if |t.children| > 0 then Fault(PARSE_ERROR)
    else if !Utf8.Legal(CString(t.cdata)) then Fault(INVALID_UTF8_ERROR)
    else Ok(CString(t.cdata))
  }

  /** parseCallChildren: a missing <params> is an empty list, but only if nothing else is there. */
  function ParseCallChildren(nesting: nat, t: XmlTree): Result<Call>
  {
    var n := ChildNamed(t.children, "methodName");
    if n == |t.children| then Fault(PARSE_ERROR)
    else match ParseMethodName(t.children[n])
      case Fault(code) => Fault(code)
      case Ok(name) =>
        if |t.children| == 1 then Ok(Call(name, []))
        else
          var k := ChildNamed(t.children, "params");
          if k == |t.children| then Fault(PARSE_ERROR)
          else match ConvertParams(nesting, t.children[k])
            case Fault(code) => Fault(code)
            case Ok(params) => if |t.children| > 2 then Fault(PARSE_ERROR) else Ok(Call(name, params))
  }

  /** xmlrpc_parse_call */
  function ParseCall(limits: Limits, bs: seq<byte>): Result<Call>
  {
    if |bs| > limits.xmlSize then Fault(LIMIT_EXCEEDED_ERROR)
    else match ParseXml(bs)
      case Fault(code) => Fault(code)
      case Ok(t) =>
        if t.name != "methodCall" then Fault(PARSE_ERROR) else ParseCallChildren(limits.nesting, t)
  }

  // ---------------------------------------------------------------- parsing responses

  datatype Response = Success(value: Value) | Failure(code: int32, text: seq<byte>)

  /** parseParamsElement: a response has exactly one parameter. */
  function ParseParamsElement(nesting: nat, t: XmlTree): Result<Response>
  {
    match ConvertParams(nesting, t)
    case Fault(code) => Fault(code)
    case Ok(params) => if |params| != 1 then Fault(PARSE_ERROR) else Ok(Success(params[0]))
  }

  /** interpretFaultValue: the code must be an integer and the string free of NULs. */
  function InterpretFault(v: Value): Result<Response>
  {
    if !v.Struct? then Fault(PARSE_ERROR)
    else
      var i := KeyIndex(v.members, Ascii("faultCode"));
      if i == |v.members| || !v.members[i].value.Int? then Fault(PARSE_ERROR)
      else
        var k := KeyIndex(v.members, Ascii("faultString"));
        if k == |v.members| || !v.members[k].value.Str? || 0 in v.members[k].value.s then Fault(PARSE_ERROR)
        else Ok(Failure(v.members[i].value.i, v.members[k].value.s))
  }

  /** parseFaultElement */
  function ParseFaultElement(nesting: nat, t: XmlTree): Result<Response>
  {
    if |t.children| != 1 then Fault(PARSE_ERROR)
    else match ConvertValue(nesting, t.children[0])
      case Fault(code) => Fault(code)
      case Ok(v) => InterpretFault(v)
  }

  /** xmlrpc_parse_response2 and parseMethodResponseElt */
  function ParseResponse(limits: Limits, bs: seq<byte>): Result<Response>
  {
    if |bs| > limits.xmlSize then Fault(LIMIT_EXCEEDED_ERROR)
    else match ParseXml(bs)
      case Fault(code) => Fault(code)
      case Ok(t) =>
        if t.name != "methodResponse" || |t.children| != 1 then Fault(PARSE_ERROR)
        else if t.children[0].name == "params" then ParseParamsElement(limits.nesting, t.children[0])
        else if t.children[0].name == "fault" then ParseFaultElement(limits.nesting, t.children[0])
        else Fault(PARSE_ERROR)
  }

  // ---------------------------------------------------------------- message documents are sound

  lemma {:induction false} MessageNames()
    ensures IsName("methodCall") && IsName("methodName") && IsName("params")
    ensures IsName("param") && IsName("methodResponse") && IsName("fault")
  {
  }

  lemma {:induction false} DeclarationIsInstruction()
    ensures var d := Declaration();
            |d| > 1 && GT !in d && d[0] == QUERY && d[|d| - 1] == QUERY && IsText(d)
  {
    var text := "?xml version=\"1.0\" encoding=\"UTF-8\"?";
    assert forall k | 0 <= k < |text| :: ' ' <= text[k] <= '~' && text[k] != '>';
    PlainAscii(text);
  }

  lemma {:induction false} PlainAscii(text: string)
    requires forall k | 0 <= k < |text| :: ' ' <= text[k] <= '~' && text[k] != '>'
    ensures GT !in Ascii(text) && IsText(Ascii(text))
  {
    var bytes := Ascii(text);
    forall k | 0 <= k < |bytes| ensures 32 <= bytes[k] < 0x80 && bytes[k] != GT { assert text[k] != '>'; }
    AsciiIsText(bytes);
  }

  /** A message text parses to its document's tree unless some text in it is not UTF-8 or has a control
      character. */
  lemma {:induction false} MessageParses(n: Node)
    requires n.Elem? && WellNamed(n)
    ensures ParseXml(MessageText(n)) == if Clean(n) then Ok(Tree(n)) else Fault(PARSE_ERROR)
  {
    hide ParseXml, Declaration;
    DeclarationIsInstruction();
    ParseRendered(n, Declaration(), CRLF);
  }

  predicate NodeFine(n: Node, clean: bool)
  {
    n.Elem? && WellNamed(n) && (clean ==> Clean(n))
  }

  predicate ContentFine(ns: seq<Node>, clean: bool)
  {
    AllWellNamed(ns) && (clean ==> AllClean(ns)) && (ns != [] ==> ns[0].Elem?)
  }

  /** Elements of a message stand on lines of their own. */
  lemma {:induction false} NextLine(n: Node, ns: seq<Node>, clean: bool)
    requires NodeFine(n, clean) && ContentFine(ns, clean)
    ensures ContentFine([n, BREAK] + ns, clean)
  {
    Codec.MoreContent(BREAK, ns);
    Codec.MoreContent(n, [BREAK] + ns);
    Codec.BreakClean();
    if clean {
      Codec.MoreClean(BREAK, ns);
      Codec.MoreClean(n, [BREAK] + ns);
    }
    assert [n, BREAK] + ns == [n] + ([BREAK] + ns);
  }

  lemma {:induction false} Enclose(name: string, ns: seq<Node>, clean: bool)
    requires IsName(name) && ContentFine(ns, clean)
    ensures NodeFine(Elem(name, [BREAK] + ns), clean)
  {
    hide IsName;
    Codec.MoreContent(BREAK, ns);
    Codec.BreakClean();
    if clean {
      Codec.MoreClean(BREAK, ns);
    }
  }

  lemma {:induction false} NoContent(clean: bool)
    ensures ContentFine([], clean)
  {
  }

  lemma {:induction false} ValueFine(v: Value)
    requires Serializable(v)
    ensures NodeFine(Doc(v), Portable(v)) && NodeFine(Elem("param", [Doc(v)]), Portable(v))
  {
    hide IsName, Doc;
    MessageNames();
    Codec.DocWellNamed(v);
    Codec.OneChild("param", Doc(v));
    if Portable(v) {
      Codec.DocClean(v);
      Codec.OneCleanChild("param", Doc(v));
    }
  }

  lemma {:induction false} ParamsFine(params: seq<Value>, clean: bool)
    requires AllSerializable(params)
    requires clean ==> forall k | 0 <= k < |params| :: Portable(params[k])
    ensures ContentFine(DocParamList(params), clean) && NodeFine(DocParams(params), clean)
  {
    hide IsName, NodeFine, ContentFine, Portable, Serializable, Doc;
    MessageNames();
    NoContent(clean);
    if params != [] {
      ValueFine(params[0]);
      FineWeaker(Elem("param", [Doc(params[0])]), Portable(params[0]), clean);
      ParamsFine(params[1..], clean);
      NextLine(Elem("param", [Doc(params[0])]), DocParamList(params[1..]), clean);
    }
    Enclose("params", DocParamList(params), clean);
  }

  lemma {:induction false} FineWeaker(n: Node, clean: bool, clean': bool)
    requires NodeFine(n, clean) && (clean' ==> clean)
    ensures NodeFine(n, clean')
  {
  }

  lemma {:induction false} NameFine(name: string, text: seq<byte>)
    requires IsName(name)
    ensures NodeFine(Leaf(name, text), Printable(text))
  {
    hide IsName;
    Codec.LeafWellNamed(name, text);
    if Printable(text) {
      Codec.LeafClean(name, text);
    }
  }

  predicate PortableCall(methodName: seq<byte>, params: seq<Value>)
  {
    Utf8.Legal(methodName) && Printable(methodName) && forall k | 0 <= k < |params| :: Portable(params[k])
  }

  lemma {:induction false} CallFine(methodName: seq<byte>, params: seq<Value>)
    requires AllSerializable(params)
    ensures NodeFine(DocCall(methodName, params), PortableCall(methodName, params))
  {
    hide IsName, NodeFine, ContentFine, Portable, Serializable, Doc, DocParams, Utf8.Legal, Printable;
    MessageNames();
    var clean := PortableCall(methodName, params);
    NoContent(clean);
    ParamsFine(params, clean);
    NextLine(DocParams(params), [], clean);
    NameFine("methodName", methodName);
    FineWeaker(Leaf("methodName", methodName), Printable(methodName), clean);
    NextLine(Leaf("methodName", methodName), [DocParams(params), BREAK] + [], clean);
    var content := [Leaf("methodName", methodName), BREAK] + ([DocParams(params), BREAK] + []);
    Enclose("methodCall", content, clean);
    assert [BREAK] + content == [BREAK, Leaf("methodName", methodName), BREAK, DocParams(params), BREAK];
  }

  lemma {:induction false} ReplyFine(outer: string, inner: Node, clean: bool)
    requires IsName(outer) && NodeFine(inner, clean)
    ensures NodeFine(Elem("methodResponse", [BREAK, Elem(outer, [BREAK, inner, BREAK]), BREAK]), clean)
  {
    hide IsName, NodeFine, ContentFine;
    MessageNames();
    NoContent(clean);
    NextLine(inner, [], clean);
    Enclose(outer, [inner, BREAK] + [], clean);
    assert [BREAK] + ([inner, BREAK] + []) == [BREAK, inner, BREAK];
    var middle := Elem(outer, [BREAK, inner, BREAK]);
    NextLine(middle, [], clean);
    Enclose("methodResponse", [middle, BREAK] + [], clean);
    assert [BREAK] + ([middle, BREAK] + []) == [BREAK, middle, BREAK];
  }

  // ---------------------------------------------------------------- the trees of messages

  lemma {:induction false} LinesTree(name: string, first: Node, rest: seq<Node>)
    requires !first.Text?
    ensures var t := Tree(Elem(name, [BREAK] + ([first, BREAK] + rest)));
            t.name == name && t.children == [Tree(first)] + Children(rest)
  {
    hide Tree;
    Codec.TreeOfElem(name, [BREAK] + ([first, BREAK] + rest));
    Codec.BreakFirst([first, BREAK] + rest);
    Codec.ElementFirst(first, rest);
  }

  lemma {:induction false} NoChildren()
    ensures Children([]) == []
  {
  }

  predicate AllKeysDistinct(vs: seq<Value>) { forall k | 0 <= k < |vs| :: KeysDistinct(vs[k]) }

  predicate AllWithin(vs: seq<Value>, nesting: nat) { forall k | 0 <= k < |vs| :: Depth(vs[k]) <= nesting }

  lemma {:induction false} ParamListConverts(nesting: nat, params: seq<Value>)
    requires AllSerializable(params) && AllKeysDistinct(params)
    requires forall k | 0 <= k < |params| :: Portable(params[k])
    ensures ConvertParamList(nesting, Children(DocParamList(params)))
         == Codec.Outcome(AllWithin(params, nesting), params)
  {
    hide Tree, ConvertValue, Depth, Serializable, KeysDistinct, Portable, Doc;
    if params == [] {
      NoChildren();
    } else {
      var first := Elem("param", [Doc(params[0])]);
      Codec.ElementFirst(first, DocParamList(params[1..]));
      Codec.OnlyChild("param", Doc(params[0]));
      Codec.DocConverts(nesting, params[0]);
      ParamListConverts(nesting, params[1..]);
      var kids := Children(DocParamList(params));
      assert kids[0] == Tree(first) && kids[1..] == Children(DocParamList(params[1..]));
      assert [params[0]] + params[1..] == params;
    }
  }

  lemma {:induction false} ParamsTree(params: seq<Value>)
    requires AllSerializable(params)
    ensures var t := Tree(DocParams(params));
            t.name == "params" && t.children == Children(DocParamList(params))
  {
    hide Tree;
    Codec.TreeOfElem("params", [BREAK] + DocParamList(params));
    Codec.BreakFirst(DocParamList(params));
  }

  lemma {:induction false} CallTree(methodName: seq<byte>, params: seq<Value>)
    requires AllSerializable(params) && CR !in methodName
    ensures var t := Tree(DocCall(methodName, params));
            t.name == "methodCall" && t.children == [XmlTree("methodName", methodName, []), Tree(DocParams(params))]
  {
    hide Tree;
    var name := Leaf("methodName", methodName);
    var rest := [DocParams(params), BREAK] + [];
    assert [BREAK] + ([name, BREAK] + rest) == [BREAK, name, BREAK, DocParams(params), BREAK];
    LinesTree("methodCall", name, rest);
    Codec.ElementFirst(DocParams(params), []);
    NoChildren();
    Codec.LeafTree("methodName", methodName);
    Codec.NoCrUnchanged(methodName);
  }

  lemma {:induction false} CallConverts(nesting: nat, methodName: seq<byte>, params: seq<Value>)
    requires AllSerializable(params) && AllKeysDistinct(params) && PortableCall(methodName, params)
    ensures Tree(DocCall(methodName, params)).name == "methodCall"
    ensures ParseCallChildren(nesting, Tree(DocCall(methodName, params)))
         == Codec.Outcome(AllWithin(params, nesting), Call(methodName, params))
  {
    hide Tree, ConvertParamList, Utf8.Legal, Portable, Serializable, KeysDistinct, Depth, ChildNamed, CString;
    CallTree(methodName, params);
    ParamsTree(params);
    ParamListConverts(nesting, params);
    assert |"methodName"| != |"params"|;
    OneOfEach(XmlTree("methodName", methodName, []), Tree(DocParams(params)));
    Codec.NoNul(methodName);
  }

  // ---------------------------------------------------------------- what parsed messages are like

  lemma {:induction false} ParamListSound(nesting: nat, ts: seq<XmlTree>)
    requires ConvertParamList(nesting, ts).Ok?
    ensures var vs := ConvertParamList(nesting, ts).value;
            && AllWithin(vs, nesting)
            && ((forall k | 0 <= k < |ts| :: PrintableTree(ts[k])) ==> forall k | 0 <= k < |vs| :: Portable(vs[k]))
  {
    hide ConvertValue, Depth, Portable;
    if ts != [] {
      assert PrintableTree(ts[0]) ==> PrintableTree(ts[0].children[0]);
      Codec.ConvertSound(nesting, ts[0].children[0]);
      ParamListSound(nesting, ts[1..]);
    }
  }

  lemma {:induction false} PrintablePrefix(s: seq<byte>)
    requires Printable(s)
    ensures Printable(CString(s))
  {
    Codec.NoNul(s);
  }

  lemma {:induction false} CallSound(nesting: nat, t: XmlTree)
    requires PrintableTree(t) && ParseCallChildren(nesting, t).Ok?
    ensures var c := ParseCallChildren(nesting, t).value;
            PortableCall(c.methodName, c.params) && AllWithin(c.params, nesting)
  {
    hide ConvertParamList, Utf8.Legal, Printable, ChildNamed, Portable, Depth, CString;
    var n, k := ChildNamed(t.children, "methodName"), ChildNamed(t.children, "params");
    assert PrintableTree(t.children[n]);
    PrintablePrefix(t.children[n].cdata);
    if |t.children| != 1 {
      assert PrintableTree(t.children[k]);
      ParamListSound(nesting, t.children[k].children);
    }
  }

  // ---------------------------------------------------------------- round trips of messages

  /** A call comes back exactly when its name and parameters are portable, no parameter is nested
      too deep, and the text is within the size limit. */
  lemma {:induction false} CallRoundTrip(limits: Limits, methodName: seq<byte>, params: seq<Value>)
    requires AllSerializable(params) && AllKeysDistinct(params)
    ensures var text := MessageText(DocCall(methodName, params));
            ParseCall(limits, text) == Ok(Call(methodName, params))
            <==> PortableCall(methodName, params) && AllWithin(params, limits.nesting) && |text| <= limits.xmlSize
  {
    hide ParseXml, MessageText, ParseCallChildren, PortableCall, AllWithin, DocCall, Tree, Clean, WellNamed;
    var n := DocCall(methodName, params);
    CallFine(methodName, params);
    assert n.Elem?;
    MessageParses(n);
    if PortableCall(methodName, params) {
      CallConverts(limits.nesting, methodName, params);
    }
    if ParseCall(limits, MessageText(n)) == Ok(Call(methodName, params)) {
      ParsedIsPrintable(MessageText(n));
      CallSound(limits.nesting, ParseXml(MessageText(n)).value);
    }
  }

  // ---------------------------------------------------------------- responses

  /** The tree of a response: one element, holding one element that holds what matters. */
  lemma {:induction false} ReplyTree(outer: string, inner: Node)
    requires !inner.Text?
    ensures var t := Tree(Elem("methodResponse", [BREAK, Elem(outer, [BREAK, inner, BREAK]), BREAK]));
            && t.name == "methodResponse" && |t.children| == 1
            && t.children[0].name == outer && t.children[0].children == [Tree(inner)]
  {
    hide Tree;
    NoChildren();
    var middle := Elem(outer, [BREAK, inner, BREAK]);
    assert [BREAK] + ([inner, BREAK] + []) == [BREAK, inner, BREAK];
    assert [BREAK] + ([middle, BREAK] + []) == [BREAK, middle, BREAK];
    LinesTree(outer, inner, []);
    LinesTree("methodResponse", middle, []);
  }

  /** A response comes back exactly when its value is portable, not nested too deep, and the text
      is within the size limit. */
  lemma {:induction false} ResponseRoundTrip(limits: Limits, v: Value)
    requires Serializable(v) && KeysDistinct(v)
    ensures var text := MessageText(DocResponse(v));
            ParseResponse(limits, text) == Ok(Success(v))
            <==> Portable(v) && Depth(v) <= limits.nesting && |text| <= limits.xmlSize
  {
    hide ParseXml, MessageText, ConvertValue, Portable, Depth, Tree, Clean, WellNamed, Serializable, KeysDistinct, Doc, IsName;
    var n, param := DocResponse(v), Elem("param", [Doc(v)]);
    MessageNames();
    ValueFine(v);
    ReplyFine("params", param, Portable(v));
    MessageParses(n);
    ReplyTree("params", param);
    Codec.OnlyChild("param", Doc(v));
    if Portable(v) {
      Codec.DocConverts(limits.nesting, v);
      OneParam(limits.nesting, Tree(param));
    }
    if ParseResponse(limits, MessageText(n)) == Ok(Success(v)) {
      SuccessSound(limits, MessageText(n));
    }
  }

  lemma {:induction false} OneParam(nesting: nat, param: XmlTree)
    requires param.name == "param" && |param.children| == 1
    ensures ConvertParamList(nesting, [param])
         == match ConvertValue(nesting, param.children[0]) case Ok(v) => Ok([v]) case Fault(code) => Fault(code)
  {
    hide ConvertValue;
    assert [param][1..] == [];
    assert ConvertParamList(nesting, []) == Ok([]);
    match ConvertValue(nesting, param.children[0]) {
      case Ok(v) => assert [v] + [] == [v];
      case Fault(_) =>
    }
  }

  lemma {:induction false} SuccessSound(limits: Limits, bs: seq<byte>)
    requires ParseResponse(limits, bs).Ok? && ParseResponse(limits, bs).value.Success?
    ensures var v := ParseResponse(limits, bs).value.value;
            Portable(v) && Depth(v) <= limits.nesting && |bs| <= limits.xmlSize
  {
    hide ParseXml, ConvertValue, ConvertParamList, Portable, Depth;
    ParsedIsPrintable(bs);
    var t := ParseXml(bs).value;
    assert PrintableTree(t.children[0]);
    ParamListSound(limits.nesting, t.children[0].children);
  }

  // ---------------------------------------------------------------- faults

  lemma {:induction false} AsciiLegal(s: seq<byte>)
    requires forall k | 0 <= k < |s| :: 32 <= s[k] < 128
    ensures Utf8.Legal(s) && Printable(s)
  {
    AsciiIsText(s);
    if s != [] {
      AsciiLegal(s[1..]);
      Utf8.OneByte(s[0]);
      assert s[..1] == [s[0]];
    }
  }

  lemma {:induction false} FaultKeys()
    ensures var code, text := Ascii("faultCode"), Ascii("faultString");
            code != text && Utf8.Legal(code) && Printable(code) && Utf8.Legal(text) && Printable(text)
  {
    AsciiLegal(Ascii("faultCode"));
    AsciiLegal(Ascii("faultString"));
    assert |Ascii("faultCode")| != |Ascii("faultString")|;
  }

  lemma {:induction false} FaultValueIs(code: int32, text: seq<byte>)
    ensures var v := FaultValue(code, text);
            && Serializable(v) && KeysDistinct(v) && Depth(v) == 2
            && (Portable(v) <==> Utf8.Legal(text) && Printable(text))
            && KeyIndex(v.members, Ascii("faultCode")) == 0 && KeyIndex(v.members, Ascii("faultString")) == 1
  {
    hide Utf8.Legal, Printable, Ascii;
    FaultKeys();
    var v := FaultValue(code, text);
    var ms := v.members;
    assert ms[0] == Member(Ascii("faultCode"), Int(code)) && ms[1] == Member(Ascii("faultString"), Str(text));
    assert ms[1..][1..] == [];
    assert MaxMemberDepth(ms[1..][1..]) == 0;
    assert MaxMemberDepth(ms[1..]) == 1;
    assert MaxMemberDepth(ms) == 1;
    KeyIndexIs(ms, Ascii("faultString"), 1);
    if Utf8.Legal(text) && Printable(text) {
      assert forall k | 0 <= k < |ms| ::
          Utf8.Legal(ms[k].key) && Printable(ms[k].key) && Portable(ms[k].value);
    }
    if Portable(v) {
      assert Portable(ms[1].value);
    }
  }

  /** A fault response brings back its code and string exactly when the string is legal UTF-8 that
      XML leaves alone, two levels of nesting are allowed, and the text is within the size limit. */
  lemma {:induction false} FaultRoundTrip(limits: Limits, code: int32, text: seq<byte>)
    ensures var wire := MessageText(DocFault(code, text));
            ParseResponse(limits, wire) == Ok(Failure(code, text))
            <==> Utf8.Legal(text) && Printable(text) && limits.nesting >= 2 && |wire| <= limits.xmlSize
  {
    hide ParseXml, MessageText, ConvertValue, Portable, Depth, Tree, Clean, WellNamed, Serializable, KeysDistinct, Doc, IsName,
         KeyIndex, Utf8.Legal, IsText, FaultValue, InterpretFault;
    var v := FaultValue(code, text);
    var n := DocFault(code, text);
    FaultValueIs(code, text);
    MessageNames();
    ValueFine(v);
    ReplyFine("fault", Doc(v), Portable(v));
    MessageParses(n);
    ReplyTree("fault", Doc(v));
    assert |"fault"| != |"params"|;
    var converted := ConvertValue(limits.nesting, Tree(Doc(v)));
    if Portable(v) {
      Codec.DocConverts(limits.nesting, v);
      Codec.NoNul(text);
      InterpretsFault(code, text);
      assert ParseXml(MessageText(n)) == Ok(Tree(n));
      assert |MessageText(n)| <= limits.xmlSize ==>
          ParseResponse(limits, MessageText(n)) == ParseFaultElement(limits.nesting, Tree(n).children[0]);
    }
    if ParseResponse(limits, MessageText(n)) == Ok(Failure(code, text)) {
      FailureSound(limits, MessageText(n));
      if limits.nesting < 2 {
        Codec.DocConverts(limits.nesting, v);
      }
    }
  }

  lemma {:induction false} InterpretsFault(code: int32, text: seq<byte>)
    requires 0 !in text
    ensures InterpretFault(FaultValue(code, text)) == Ok(Failure(code, text))
  {
    hide KeyIndex, Ascii;
    FaultValueIs(code, text);
  }

  /** A parsed fault's string is legal and printable. */
  lemma {:induction false} FailureSound(limits: Limits, bs: seq<byte>)
    requires ParseResponse(limits, bs).Ok? && ParseResponse(limits, bs).value.Failure?
    ensures var text := ParseResponse(limits, bs).value.text;
            Utf8.Legal(text) && Printable(text) && |bs| <= limits.xmlSize
  {
    hide ParseXml, ConvertValue, ConvertParamList, KeyIndex, Utf8.Legal, IsText, Ascii;
    ParsedIsPrintable(bs);
    var t := ParseXml(bs).value;
    assert PrintableTree(t.children[0]);
    assert PrintableTree(t.children[0].children[0]);
    Codec.ConvertSound(limits.nesting, t.children[0].children[0]);
    var v := ConvertValue(limits.nesting, t.children[0].children[0]).value;
    var k := KeyIndex(v.members, Ascii("faultString"));
    assert Portable(v.members[k].value);
  }
}
