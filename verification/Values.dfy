/**
 XML-RPC values, the text xmlrpc_serialize.c prints for them, and what xmlrpc_parse.c makes of an
 element tree.
 */
module Values {
  import opened Bytes
  import opened Xml
  import opened Sax
  import Base64
  import Utf8

  const INT32_MIN := -0x8000_0000
  const INT32_MAX := 0x7FFF_FFFF

  type int32 = i: int | INT32_MIN <= i <= INT32_MAX

  datatype Value =
    | Int(i: int32)
    | Bool(b: bool)
    | Str(s: seq<byte>)
    | DateTime(text: seq<byte>)
    | Binary(data: seq<byte>)
    | Nil
    | CPtr(address: nat)
    | Array(items: seq<Value>)
    | Struct(members: seq<Member>)

  datatype Member = Member(key: seq<byte>, value: Value)

  // ---------------------------------------------------------------- structs

  /** The position of a key, or the number of members if it is not there. */
  function KeyIndex(ms: seq<Member>, key: seq<byte>): (i: nat)
    ensures i <= |ms|
    ensures i < |ms| ==> ms[i].key == key
    ensures forall k | 0 <= k < i :: ms[k].key != key
  {
    FirstIndex(ms, (m: Member) => m.key == key)
  }

  /** Setting a member replaces the value in place, or appends a new member. */
  function SetMember(ms: seq<Member>, key: seq<byte>, value: Value): seq<Member>
  {
    var i := KeyIndex(ms, key);
    if i < |ms| then ms[i := Member(ms[i].key, value)] else ms + [Member(key, value)]
  }

  predicate DistinctKeys(ms: seq<Member>)
  {
    forall i, j | 0 <= i < j < |ms| :: ms[i].key != ms[j].key
  }

  lemma {:induction false} KeyIndexIs(ms: seq<Member>, key: seq<byte>, i: nat)
    requires i < |ms| && ms[i].key == key && forall k | 0 <= k < i :: ms[k].key != key
    ensures KeyIndex(ms, key) == i
  {
  }

  /** Setting keeps the keys distinct, makes the key name the new value, in its old place if it had
      one, and leaves every other member alone. */
  lemma {:induction false} SetMemberLaws(ms: seq<Member>, key: seq<byte>, value: Value)
    ensures var i, ms' := KeyIndex(ms, key), SetMember(ms, key, value);
            && (DistinctKeys(ms) ==> DistinctKeys(ms'))
            && |ms'| == (if i < |ms| then |ms| else |ms| + 1)
            && KeyIndex(ms', key) == i && ms'[i] == Member(key, value)
            && (forall k | 0 <= k < |ms| && k != i :: ms'[k] == ms[k])
  {
    hide KeyIndex;
    var i, ms' := KeyIndex(ms, key), SetMember(ms, key, value);
    KeyIndexIs(ms', key, i);
  }

  // ---------------------------------------------------------------- what a value is like

  /** Every value the API can build, except the C pointer, can be serialized. */
  predicate Serializable(v: Value)
    decreases v
  {
    match v
    case CPtr(_) => false
    case Array(items) => forall k | 0 <= k < |items| :: Serializable(items[k])
    case Struct(ms) => forall k | 0 <= k < |ms| :: Serializable(ms[k].value)
    case _ => true
  }

  /** No struct in the value has two members with one key. */
  predicate KeysDistinct(v: Value)
    decreases v
  {
    match v
    case Array(items) => forall k | 0 <= k < |items| :: KeysDistinct(items[k])
    case Struct(ms) => DistinctKeys(ms) && forall k | 0 <= k < |ms| :: KeysDistinct(ms[k].value)
    case _ => true
  }

  /** Every string and key is legal UCS-2 text in UTF-8, and no text, be it of a date, holds what XML
      would alter or refuse: bytes that are not UTF-8, carriage returns, control characters. */
  predicate Portable(v: Value)
    decreases v
  {
    match v
    case Str(s) => Utf8.Legal(s) && Printable(s)
    case DateTime(s) => Printable(s)
    case Array(items) => forall k | 0 <= k < |items| :: Portable(items[k])
    case Struct(ms) => forall k | 0 <= k < |ms| ::
                         Utf8.Legal(ms[k].key) && Printable(ms[k].key) && Portable(ms[k].value)
    case _ => true
  }

  /** Nesting depth: a scalar, an empty array and an empty struct have depth one. */
  function Depth(v: Value): (d: nat)
    ensures d >= 1
    decreases v, 1
  {
    match v
    case Array(items) => 1 + MaxDepth(items)
    case Struct(ms) => 1 + MaxMemberDepth(ms)
    case _ => 1
  }

  function MaxDepth(items: seq<Value>): nat
    decreases items, 0
  {
    if items == [] then 0 else Max(Depth(items[0]), MaxDepth(items[1..]))
  }

  function MaxMemberDepth(ms: seq<Member>): nat
    decreases ms, 0
  {
    if ms == [] then 0 else Max(Depth(ms[0].value), MaxMemberDepth(ms[1..]))
  }

  function Max(a: nat, b: nat): nat { if a < b then b else a }

  // ---------------------------------------------------------------- numbers

  function Digits(n: nat): (s: seq<byte>)
    ensures s != []
  {
    if n < 10 then [48 + n] else Digits(n / 10) + [48 + n % 10]
  }

  /** What printf writes for `%i`. */
  function Decimal(i: int): seq<byte>
  {
    if i < 0 then [45] + Digits(-i) else Digits(i)
  }

  predicate IsDigit(b: byte) { 48 <= b <= 57 }

  function LeadingDigits(s: seq<byte>): (n: nat)
    ensures n <= |s|
    ensures forall k | 0 <= k < n :: IsDigit(s[k])
  {
    if s == [] || !IsDigit(s[0]) then 0 else 1 + LeadingDigits(s[1..])
  }

  function NumberOf(digits: seq<byte>): nat
    requires forall k | 0 <= k < |digits| :: IsDigit(digits[k])
  {
    if digits == [] then 0
    else assert IsDigit(digits[|digits| - 1]); NumberOf(digits[..|digits| - 1]) * 10 + (digits[|digits| - 1] as int - 48)
  }

  /** strtol in base ten: the number read and how many characters it took; none if there is no digit. */
  function Strtol(s: seq<byte>): (int, nat)
  {
    var sign := if s != [] && s[0] in {43, 45} then 1 else 0;
    var n := LeadingDigits(s[sign..]);
    if n == 0 then (0, 0)
    else if sign == 1 && s[0] == 45 then (-(NumberOf(s[sign..][..n]) as int), sign + n)
    else (NumberOf(s[sign..][..n]), sign + n)
  }

  /** isspace in the C locale. */
  predicate IsCSpace(b: byte) { b == 32 || 9 <= b <= 13 }

  /** A character array read as a C string ends at its first NUL. */
  function CString(s: seq<byte>): (t: seq<byte>)
    ensures |t| <= |s| && t == s[..|t|]
    ensures 0 !in s ==> t == s
  {
    if s == [] || s[0] == 0 then [] else [s[0]] + CString(s[1..])
  }

  /** xmlrpc_atoi */
  function Atoi(s: seq<byte>, min: int, max: int): (r: Result<int>)
    ensures r.Ok? ==> min <= r.value <= max
  {
    if s != [] && IsCSpace(s[0]) then Fault(PARSE_ERROR)
    else
      var (i, used) := Strtol(s);
      if i < min || i > max then Fault(PARSE_ERROR)
      else if used != |s| then Fault(PARSE_ERROR)
      else Ok(i)
  }

  lemma {:induction false} DigitsRead(n: nat)
    ensures forall k | 0 <= k < |Digits(n)| :: IsDigit(Digits(n)[k])
    ensures NumberOf(Digits(n)) == n
  {
    if n < 10 {
      assert Digits(n)[..0] == [];
    } else {
      DigitsRead(n / 10);
      assert Digits(n)[..|Digits(n)| - 1] == Digits(n / 10);
    }
  }

  lemma {:induction false} AllDigits(s: seq<byte>)
    requires forall k | 0 <= k < |s| :: IsDigit(s[k])
    ensures LeadingDigits(s) == |s|
  {
    if s != [] {
      AllDigits(s[1..]);
    }
  }

  /** Numbers read back: atoi undoes printf wherever the number is in range. */
  lemma {:induction false} AtoiDecimal(i: int, min: int, max: int)
    ensures Atoi(Decimal(i), min, max) == if min <= i <= max then Ok(i) else Fault(PARSE_ERROR)
  {
    var digits := Digits(if i < 0 then -i else i);
    DigitsRead(if i < 0 then -i else i);
    AllDigits(digits);
    var s := Decimal(i);
    var sign := if i < 0 then 1 else 0;
    assert s[sign..] == digits && digits[..|digits|] == digits;
    assert IsDigit(digits[0]);
  }

  predicate AreDigits(s: seq<byte>) { s != [] && forall k | 0 <= k < |s| :: IsDigit(s[k]) }

  /** An optional sign and one or more digits, denoting `i`. */
  predicate Denotes(s: seq<byte>, i: int)
  {
    || (AreDigits(s) && i == NumberOf(s))
    || (s != [] && s[0] == 43 && AreDigits(s[1..]) && i == NumberOf(s[1..]))
    || (s != [] && s[0] == 45 && AreDigits(s[1..]) && i == -(NumberOf(s[1..]) as int))
  }

  lemma {:induction false} DigitsToTheEnd(s: seq<byte>)
    ensures LeadingDigits(s) == |s| <==> forall k | 0 <= k < |s| :: IsDigit(s[k])
  {
    if forall k | 0 <= k < |s| :: IsDigit(s[k]) {
      AllDigits(s);
    }
  }

  /** Numbers are printed as numerals that denote them, without a plus sign or a leading zero. */
  lemma {:induction false} DecimalCanonical(i: int)
    ensures var s := Decimal(i);
            && Denotes(s, i) && s[0] != 43 && (s[0] == 45 <==> i < 0)
            && (i != 0 ==> s[if i < 0 then 1 else 0] != 48)
  {
    var n := if i < 0 then -i else i;
    DigitsRead(n);
    if n > 0 {
      NoLeadingZero(n);
    }
    assert IsDigit(Digits(n)[0]);
    assert i < 0 ==> Decimal(i)[1..] == Digits(n);
  }

  lemma {:induction false} NoLeadingZero(n: nat)
    requires n > 0
    ensures Digits(n)[0] != 48
  {
    if n >= 10 {
      NoLeadingZero(n / 10);
    }
  }

  /** What the number reader accepts: numerals in range and, because strtol then reads no digits and
      leaves nothing over, the empty text, as 0. */
  lemma {:induction false} AtoiAccepts(s: seq<byte>, min: int, max: int, i: int)
    ensures Atoi(s, min, max) == Ok(i) <==> min <= i <= max && ((s == [] && i == 0) || Denotes(s, i))
  {
    hide LeadingDigits, NumberOf;
    var sign := if s != [] && s[0] in {43, 45} then 1 else 0;
    var digits := s[sign..];
    DigitsToTheEnd(digits);
    assert digits[..|digits|] == digits;
    assert s[0..] == s;
  }

  /** A lone sign and leading white space are refused, whatever the range; no digits at all are not. */
  lemma {:induction false} AtoiEdges(s: seq<byte>, min: int, max: int)
    ensures min <= 0 <= max ==> Atoi([], min, max) == Ok(0)
    ensures Atoi([43], min, max) == Fault(PARSE_ERROR) && Atoi([45], min, max) == Fault(PARSE_ERROR)
    ensures s != [] && IsCSpace(s[0]) ==> Atoi(s, min, max) == Fault(PARSE_ERROR)
  {
    assert [43][1..] == [] && [45][1..] == [];
  }

  // ---------------------------------------------------------------- printing

  const BREAK := Text(CRLF)

  function Leaf(name: string, text: seq<byte>): Node { Elem(name, [Text(text)]) }

  /** The document xmlrpc_serialize_value prints. */
  function Doc(v: Value): (n: Node)
    requires Serializable(v)
    ensures n.Elem?
    decreases v, 1
  {
    Elem("value", [match v
      case Int(i) => Leaf("i4", Decimal(i))
      case Bool(b) => Leaf("boolean", Decimal(if b then 1 else 0))
      case Str(s) => Leaf("string", s)
      case DateTime(s) => Leaf("dateTime.iso8601", s)
      case Binary(data) => Leaf("base64", CRLF + Base64.Encoded(data, true))
      case Nil => SelfClosing("nil")
      case Array(items) => Elem("array", [Elem("data", [BREAK] + DocItems(items))])
      case Struct(ms) => Elem("struct", [BREAK] + DocMembers(ms))])
  }

  function DocItems(items: seq<Value>): seq<Node>
    requires forall k | 0 <= k < |items| :: Serializable(items[k])
    decreases items, 0
  {
    if items == [] then [] else [Doc(items[0]), BREAK] + DocItems(items[1..])
  }

  function DocMembers(ms: seq<Member>): seq<Node>
    requires forall k | 0 <= k < |ms| :: Serializable(ms[k].value)
    decreases ms, 0
  {
    if ms == [] then []
    else [DocMember(ms[0]), BREAK] + DocMembers(ms[1..])
  }

  function DocMember(m: Member): Node
    requires Serializable(m.value)
    decreases m, 2
  {
    Elem("member", [Leaf("name", m.key), BREAK, Doc(m.value)])
  }

  // ---------------------------------------------------------------- parsing

  function MakeString(cdata: seq<byte>): Result<Value>
  {
    if Utf8.Legal(cdata) then Ok(Str(cdata)) else Fault(INVALID_UTF8_ERROR)
  }

  /** The first child with a name, or the number of children if there is none. */
  function ChildNamed(children: seq<XmlTree>, name: string): (i: nat)
    ensures i <= |children|
    ensures i < |children| ==> children[i].name == name
    ensures forall k | 0 <= k < i :: children[k].name != name
  {
    FirstIndex(children, (c: XmlTree) => c.name == name)
  }

  lemma {:induction false} OneOfEach(a: XmlTree, b: XmlTree)
    requires a.name != b.name
    ensures ChildNamed([a, b], a.name) == 0 && ChildNamed([a, b], b.name) == 1
  {
    hide ChildNamed;
    assert [a, b][0] == a && [a, b][1] == b;
  }

  /** convert_value */
  function ConvertValue(max: nat, t: XmlTree): Result<Value>
    decreases t, 1
  {
    if max < 1 then Fault(PARSE_ERROR)
    else if t.name != "value" then Fault(PARSE_ERROR)
    else if |t.children| == 0 then MakeString(t.cdata)
    else if |t.children| != 1 then Fault(PARSE_ERROR)
    else
      var child := t.children[0];
      if child.name == "struct" then
        match ConvertMembers(max, child.children, [])
        case Ok(ms) => Ok(Struct(ms))
        case Fault(code) => Fault(code)
      else if child.name == "array" then
        if |child.children| != 1 then Fault(PARSE_ERROR)
        else if child.children[0].name != "data" then Fault(PARSE_ERROR)
        else match ConvertItems(max, child.children[0].children)
          case Ok(items) => Ok(Array(items))
          case Fault(code) => Fault(code)
      else if |child.children| != 0 then Fault(PARSE_ERROR)
      else ConvertScalar(child.name, child.cdata)
  }

  function ConvertScalar(name: string, cdata: seq<byte>): Result<Value>
  {
    if name == "i4" || name == "int" then
      match Atoi(CString(cdata), INT32_MIN, INT32_MAX)
      case Ok(i) => Ok(Int(i))
      case Fault(code) => Fault(code)
    else if name == "string" then MakeString(cdata)
    else if name == "boolean" then
      match Atoi(CString(cdata), 0, 1)
      case Ok(i) => Ok(Bool(i == 1))
      case Fault(code) => Fault(code)
    else if name == "dateTime.iso8601" then Ok(DateTime(CString(cdata)))
    else if name == "nil" then Ok(Nil)
    else if name == "base64" then
      match Base64.Decoded(cdata)
      case Ok(data) => Ok(Binary(data))
      case Fault(code) => Fault(code)
    else Fault(PARSE_ERROR)
  }

  /** Numbers and truth values as elements: the text, up to its first NUL, is a numeral in range or
      empty. So an element that is accepted holds a number if and only if its text is not empty. */
  lemma {:induction false} NumberElements(cdata: seq<byte>, i: int32, b: bool)
    ensures var text, number := CString(cdata), if b then 1 else 0;
            && (ConvertScalar("i4", cdata) == Ok(Int(i)) <==> (text == [] && i == 0) || Denotes(text, i))
            && (ConvertScalar("int", cdata) == ConvertScalar("i4", cdata))
            && (ConvertScalar("boolean", cdata) == Ok(Bool(b)) <==> (text == [] && !b) || Denotes(text, number))
            && (ConvertScalar("i4", cdata).Ok? ==> (text != [] <==> exists n: int :: Denotes(text, n)))
            && (ConvertScalar("boolean", cdata).Ok? ==> (text != [] <==> exists n: int :: Denotes(text, n)))
  {
    hide Atoi, CString, Denotes, Base64.Decoded, Utf8.Legal;
    var text := CString(cdata);
    AtoiAccepts(text, INT32_MIN, INT32_MAX, i);
    AtoiAccepts(text, 0, 1, if b then 1 else 0);
    NothingDenoted();
    match Atoi(text, INT32_MIN, INT32_MAX) {
      case Ok(n) => AtoiAccepts(text, INT32_MIN, INT32_MAX, n);
      case Fault(_) =>
    }
    match Atoi(text, 0, 1) {
      case Ok(n) => AtoiAccepts(text, 0, 1, n);
      case Fault(_) =>
    }
  }

  lemma {:induction false} NothingDenoted()
    ensures forall n: int :: !Denotes([], n)
  {
  }

  /** Elements without a digit that are taken for 0 and for false. */
  lemma {:induction false} NoDigitsAccepted()
    ensures ConvertScalar("i4", []) == Ok(Int(0)) && ConvertScalar("boolean", []) == Ok(Bool(false))
  {
    AtoiEdges([], INT32_MIN, INT32_MAX);
    AtoiEdges([], 0, 1);
  }

  /** The loop of convert_array: items are converted one level further down. */
  function ConvertItems(max: nat, children: seq<XmlTree>): Result<seq<Value>>
    requires max >= 1
    decreases children, 0
  {
    if children == [] then Ok([])
    else match ConvertValue(max - 1, children[0])
      case Fault(code) => Fault(code)
      case Ok(v) =>
        match ConvertItems(max, children[1..])
        case Fault(code) => Fault(code)
        case Ok(vs) => Ok([v] + vs)
  }

  /** The loop of convert_struct, with the members set so far. */
  function ConvertMembers(max: nat, children: seq<XmlTree>, ms: seq<Member>): Result<seq<Member>>
    requires max >= 1
    decreases children, 0
  {
    if children == [] then Ok(ms)
    else match ConvertMember(max, children[0])
      case Fault(code) => Fault(code)
      case Ok(m) => ConvertMembers(max, children[1..], SetMember(ms, m.key, m.value))
  }

  function ConvertMember(max: nat, member: XmlTree): Result<Member>
    requires max >= 1
    decreases member, 2
  {
    if member.name != "member" || |member.children| != 2 then Fault(PARSE_ERROR)
    else
      var n := ChildNamed(member.children, "name");
      if n == 2 then Fault(PARSE_ERROR)
      else if |member.children[n].children| != 0 then Fault(PARSE_ERROR)
      else if !Utf8.Legal(member.children[n].cdata) then Fault(INVALID_UTF8_ERROR)
      else
        var k := ChildNamed(member.children, "value");
        if k == 2 then Fault(PARSE_ERROR)
        else match ConvertValue(max - 1, member.children[k])
          case Fault(code) => Fault(code)
          case Ok(v) => Ok(Member(member.children[n].cdata, v))
  }
}
