/**
 What element trees mean: when a tree is a value, a call or a response, whatever its shape, and that
 the reader of xmlrpc_parse.c accepts exactly those trees, down to its nesting limit.
 */
module Reading {
  import opened Bytes
  import opened Messages
  import opened Sax
  import opened Values
  import opened Xml
  import Base64
  import Codec
  import Utf8

  // ---------------------------------------------------------------- trees that are values

  predicate IsLeaf(t: XmlTree, name: string) { t.name == name && t.children == [] }

  /** Numerals, and no digits at all for 0. */
  predicate Numeral(text: seq<byte>, i: int) { (text == [] && i == 0) || Denotes(text, i) }

  /** A value element holds one element that tells its type, or is a string. */
  ghost predicate ReadsAs(t: XmlTree, v: Value)
    decreases t, 1
  {
    && t.name == "value"
    && (|| (t.children == [] && Utf8.Legal(t.cdata) && v == Str(t.cdata))
        || (|t.children| == 1 && TypedAs(t.children[0], v)))
  }

  ghost predicate TypedAs(t: XmlTree, v: Value)
    decreases t, 1
  {
    match v
    case Int(i) => (IsLeaf(t, "i4") || IsLeaf(t, "int")) && Numeral(CString(t.cdata), i)
    case Bool(b) => IsLeaf(t, "boolean") && Numeral(CString(t.cdata), if b then 1 else 0)
    case Str(s) => IsLeaf(t, "string") && Utf8.Legal(s) && s == t.cdata
    case DateTime(text) => IsLeaf(t, "dateTime.iso8601") && text == CString(t.cdata)
    case Binary(data) => IsLeaf(t, "base64") && Base64.Decoded(t.cdata) == Ok(data)
    case Nil => IsLeaf(t, "nil")
    case CPtr(_) => false
    case Array(items) => t.name == "array" && |t.children| == 1 && t.children[0].name == "data" && ListReads(t.children[0].children, items)
    case Struct(ms) => t.name == "struct" && exists pairs: seq<Member> :: PairsRead(t.children, pairs) && ms == Collected([], pairs)
  }

  ghost predicate ListReads(ts: seq<XmlTree>, vs: seq<Value>)
    decreases ts, 0
  {
    |ts| == |vs| && forall k | 0 <= k < |ts| :: ReadsAs(ts[k], vs[k])
  }

  ghost predicate PairsRead(ts: seq<XmlTree>, pairs: seq<Member>)
    decreases ts, 0
  {
    |ts| == |pairs| && forall k | 0 <= k < |ts| :: PairReads(ts[k], pairs[k])
  }

  /** A member element holds a name and a value, in either order. */
  ghost predicate PairReads(t: XmlTree, m: Member)
    decreases t, 1
  {
    && t.name == "member" && |t.children| == 2
    && (|| (NameReads(t.children[0], m.key) && ReadsAs(t.children[1], m.value))
        || (NameReads(t.children[1], m.key) && ReadsAs(t.children[0], m.value)))
  }

  predicate NameReads(t: XmlTree, key: seq<byte>) { IsLeaf(t, "name") && Utf8.Legal(key) && key == t.cdata }

  /** A struct collects its members in order. */
  function Collected(ms: seq<Member>, pairs: seq<Member>): seq<Member>
    decreases |pairs|
  {
    if pairs == [] then ms else Collected(SetMember(ms, pairs[0].key, pairs[0].value), pairs[1..])
  }

  /** How deep value elements are nested in a tree. */
  function Levels(t: XmlTree): nat
    decreases t, 1
  {
    (if t.name == "value" then 1 else 0) + MostLevels(t.children)
  }

  function MostLevels(ts: seq<XmlTree>): nat
    decreases ts, 0
  {
    if ts == [] then 0 else Max(Levels(ts[0]), MostLevels(ts[1..]))
  }

  // ---------------------------------------------------------------- what is collected

  /** No later member has this one's key. */
  predicate LastOf(pairs: seq<Member>, k: nat)
  {
    k < |pairs| && forall j | k < j < |pairs| :: pairs[j].key != pairs[k].key
  }

  /** Of members with one key the last counts, in the place of the first; nothing else is in the struct. */
  lemma {:induction false} CollectedLaws(ms: seq<Member>, pairs: seq<Member>)
    requires DistinctKeys(ms)
    ensures var all := Collected(ms, pairs);
            && DistinctKeys(all) && |ms| <= |all|
            && (forall i | 0 <= i < |ms| :: all[i].key == ms[i].key)
            && (forall k: nat | LastOf(pairs, k) :: pairs[k] in all)
            && (forall i | 0 <= i < |all| :: (i < |ms| && all[i] == ms[i]) || all[i] in pairs)
    decreases |pairs|
  {
    hide KeyIndex, SetMember;
    if pairs != [] {
      var p, rest := pairs[0], pairs[1..];
      var next, i := SetMember(ms, p.key, p.value), KeyIndex(ms, p.key);
      var all := Collected(ms, pairs);
      SetMemberLaws(ms, p.key, p.value);
      CollectedLaws(next, rest);
      forall j | 0 <= j < |ms|
        ensures all[j].key == ms[j].key
      {
        assert all[j].key == next[j].key;
      }
      forall k: nat | LastOf(pairs, k)
        ensures pairs[k] in all
      {
        LastLater(pairs, k);
        if k == 0 {
          FirstStays(pairs, next, i, all);
        }
      }
      forall j | 0 <= j < |all|
        ensures (j < |ms| && all[j] == ms[j]) || all[j] in pairs
      {
        if j < |next| && all[j] == next[j] {
          assert j == i ==> all[j] == p;
        }
      }
    }
  }

  lemma {:induction false} LastLater(pairs: seq<Member>, k: nat)
    requires LastOf(pairs, k)
    ensures k > 0 ==> LastOf(pairs[1..], k - 1) && pairs[1..][k - 1] == pairs[k]
    ensures k == 0 ==> forall j | 0 <= j < |pairs[1..]| :: pairs[1..][j].key != pairs[0].key
  {
  }

  lemma {:induction false} FirstStays(pairs: seq<Member>, next: seq<Member>, i: nat, all: seq<Member>)
    requires pairs != [] && i < |next| <= |all| && next[i] == pairs[0] && all[i].key == next[i].key
    requires forall j | 0 <= j < |pairs[1..]| :: pairs[1..][j].key != pairs[0].key
    requires (i < |next| && all[i] == next[i]) || all[i] in pairs[1..]
    ensures pairs[0] in all
  {
    assert all[i] !in pairs[1..];
  }

  // ---------------------------------------------------------------- what is read is a value

  lemma {:induction false} MostLevelsOf(ts: seq<XmlTree>, k: nat)
    requires k < |ts|
    ensures Levels(ts[k]) <= MostLevels(ts)
    decreases |ts|
  {
    if k > 0 {
      MostLevelsOf(ts[1..], k - 1);
    }
  }

  lemma {:induction false} OneLevel(t: XmlTree)
    ensures MostLevels([t]) == Levels(t)
  {
    assert [t][1..] == [];
  }

  lemma {:induction false} TwoLevels(a: XmlTree, b: XmlTree)
    ensures MostLevels([a, b]) == Max(Levels(a), Levels(b))
  {
    assert [a, b][1..] == [b];
    OneLevel(b);
  }

  lemma {:induction false} LeafLevels(t: XmlTree, name: string)
    requires IsLeaf(t, name) && name != "value"
    ensures Levels(t) == 0
  {
  }

  lemma {:induction false} ScalarReads(t: XmlTree, v: Value)
    requires t.children == []
    ensures ConvertScalar(t.name, t.cdata) == Ok(v) <==> TypedAs(t, v) && !v.Array? && !v.Struct?
  {
    hide Denotes, CString, Base64.Decoded, Utf8.Legal, Atoi;
    var text := CString(t.cdata);
    match v {
      case Int(i) => AtoiAccepts(text, INT32_MIN, INT32_MAX, i);
      case Bool(b) =>
        AtoiAccepts(text, 0, 1, if b then 1 else 0);
      case _ =>
    }
    if t.name == "boolean" {
      match Atoi(text, 0, 1) {
        case Ok(i) => AtoiAccepts(text, 0, 1, i);
        case Fault(_) =>
      }
    }
  }

  /** What is accepted, is a value, and not nested too deep. */
  lemma {:induction false} AcceptedReads(max: nat, t: XmlTree)
    requires ConvertValue(max, t).Ok?
    ensures ReadsAs(t, ConvertValue(max, t).value) && Levels(t) <= max
    decreases t, 1
  {
    hide ConvertItems, ConvertMembers, ConvertScalar, TypedAs, Utf8.Legal;
    if t.children != [] {
      var child, v := t.children[0], ConvertValue(max, t).value;
      assert t.children == [child];
      OneLevel(child);
      if child.name == "struct" {
        var pairs := AcceptedPairs(max, child.children, []);
        StructTyped(child, v, pairs);
      } else if child.name == "array" {
        var data := child.children[0];
        assert child.children == [data] && "array"[0] != "value"[0];
        OneLevel(data);
        AcceptedItems(max, data.children);
        ArrayTyped(child, v);
      } else {
        ScalarReads(child, v);
        NoValueInside(child.name, child.cdata);
      }
    }
  }

  lemma {:induction false} NoValueInside(name: string, cdata: seq<byte>)
    ensures ConvertScalar(name, cdata).Ok? ==> name != "value"
  {
    hide Base64.Decoded, Atoi, Utf8.Legal, CString;
  }

  lemma {:induction false} StructTyped(t: XmlTree, v: Value, pairs: seq<Member>)
    requires t.name == "struct" && PairsRead(t.children, pairs) && v == Struct(Collected([], pairs))
    ensures TypedAs(t, v)
  {
    hide PairsRead, Collected;
  }

  lemma {:induction false} ArrayTyped(t: XmlTree, v: Value)
    requires t.name == "array" && |t.children| == 1 && t.children[0].name == "data"
    requires v.Array? && ListReads(t.children[0].children, v.items)
    ensures TypedAs(t, v)
  {
    hide ListReads;
  }

  lemma {:induction false} AcceptedItems(max: nat, ts: seq<XmlTree>)
    requires max >= 1 && ConvertItems(max, ts).Ok?
    ensures ListReads(ts, ConvertItems(max, ts).value) && MostLevels(ts) <= max - 1
    decreases ts, 0
  {
    hide ConvertValue, ReadsAs, Levels;
    if ts != [] {
      AcceptedReads(max - 1, ts[0]);
      AcceptedItems(max, ts[1..]);
      var vs := ConvertItems(max, ts).value;
      assert vs[1..] == ConvertItems(max, ts[1..]).value;
      forall k | 0 <= k < |ts|
        ensures ReadsAs(ts[k], vs[k])
      {
        assert k > 0 ==> ts[k] == ts[1..][k - 1] && vs[k] == vs[1..][k - 1];
      }
    }
  }

  lemma {:induction false} AcceptedPairs(max: nat, ts: seq<XmlTree>, before: seq<Member>) returns (pairs: seq<Member>)
    requires max >= 1 && ConvertMembers(max, ts, before).Ok?
    ensures PairsRead(ts, pairs) && MostLevels(ts) <= max - 1
    ensures ConvertMembers(max, ts, before).value == Collected(before, pairs)
    decreases ts, 0
  {
    hide ConvertMember, PairReads, SetMember, Levels;
    if ts == [] {
      pairs := [];
    } else {
      var m := ConvertMember(max, ts[0]).value;
      AcceptedPair(max, ts[0]);
      var rest := AcceptedPairs(max, ts[1..], SetMember(before, m.key, m.value));
      pairs := [m] + rest;
      assert pairs[1..] == rest;
      forall k | 0 <= k < |ts|
        ensures PairReads(ts[k], pairs[k])
      {
        assert k > 0 ==> ts[k] == ts[1..][k - 1] && pairs[k] == rest[k - 1];
      }
    }
  }

  lemma {:induction false} AcceptedPair(max: nat, t: XmlTree)
    requires max >= 1 && ConvertMember(max, t).Ok?
    ensures PairReads(t, ConvertMember(max, t).value) && Levels(t) <= max - 1
    decreases t, 2
  {
    hide ConvertValue, ChildNamed, ReadsAs, Utf8.Legal, Levels;
    var n, k := ChildNamed(t.children, "name"), ChildNamed(t.children, "value");
    AcceptedReads(max - 1, t.children[k]);
    assert |"name"| != |"value"|;
    assert t.children == [t.children[0], t.children[1]];
    TwoLevels(t.children[0], t.children[1]);
    LeafLevels(t.children[n], "name");
    MemberLevels(t);
  }

  lemma {:induction false} MemberLevels(t: XmlTree)
    requires t.name == "member"
    ensures Levels(t) == MostLevels(t.children)
  {
    assert |"member"| != |"value"|;
  }

  // ---------------------------------------------------------------- what is a value is read

  lemma {:induction false} ValueAccepted(max: nat, t: XmlTree, v: Value)
    requires ReadsAs(t, v) && Levels(t) <= max
    ensures ConvertValue(max, t) == Ok(v)
    decreases t, 1
  {
    hide ConvertItems, ConvertMembers, ConvertScalar, Utf8.Legal, PairsRead, ListReads, CString, Base64.Decoded, Numeral, Collected;
    if t.children != [] {
      var child := t.children[0];
      assert t.children == [child];
      OneLevel(child);
      match v {
        case Struct(ms) =>
          var pairs: seq<Member> :| PairsRead(child.children, pairs) && ms == Collected([], pairs);
          PairsAccepted(max, child.children, [], pairs);
        case Array(items) =>
          var data := child.children[0];
          assert child.children == [data];
          OneLevel(data);
          ItemsAccepted(max, data.children, items);
        case _ =>
          ScalarReads(child, v);
      }
    }
  }

  lemma {:induction false} NothingRead(ts: seq<XmlTree>, vs: seq<Value>)
    requires ListReads(ts, vs) && ts == []
    ensures vs == []
  {
  }

  lemma {:induction false} FirstRead(ts: seq<XmlTree>, vs: seq<Value>)
    requires ListReads(ts, vs) && ts != []
    ensures vs != [] && ReadsAs(ts[0], vs[0]) && ListReads(ts[1..], vs[1..])
  {
    hide ReadsAs;
    forall k | 0 <= k < |ts[1..]|
      ensures ReadsAs(ts[1..][k], vs[1..][k])
    {
      assert ReadsAs(ts[k + 1], vs[k + 1]);
    }
  }

  lemma {:induction false} ItemsAccepted(max: nat, ts: seq<XmlTree>, vs: seq<Value>)
    requires max >= 1 && ListReads(ts, vs) && MostLevels(ts) <= max - 1
    ensures ConvertItems(max, ts) == Ok(vs)
    decreases ts, 0
  {
    hide ConvertValue, ReadsAs, Levels, ListReads;
    if ts == [] {
      NothingRead(ts, vs);
    } else {
      FirstRead(ts, vs);
      ValueAccepted(max - 1, ts[0], vs[0]);
      ItemsAccepted(max, ts[1..], vs[1..]);
      assert [vs[0]] + vs[1..] == vs;
    }
  }

  lemma {:induction false} PairsAccepted(max: nat, ts: seq<XmlTree>, before: seq<Member>, pairs: seq<Member>)
    requires max >= 1 && PairsRead(ts, pairs) && MostLevels(ts) <= max - 1
    ensures ConvertMembers(max, ts, before) == Ok(Collected(before, pairs))
    decreases ts, 0
  {
    hide ConvertMember, PairReads, SetMember, Levels;
    if ts != [] {
      PairAccepted(max, ts[0], pairs[0]);
      assert forall k | 0 <= k < |ts[1..]| :: ts[1..][k] == ts[k + 1] && pairs[1..][k] == pairs[k + 1];
      PairsAccepted(max, ts[1..], SetMember(before, pairs[0].key, pairs[0].value), pairs[1..]);
    }
  }

  lemma {:induction false} PairAccepted(max: nat, t: XmlTree, m: Member)
    requires max >= 1 && PairReads(t, m) && Levels(t) <= max - 1
    ensures ConvertMember(max, t) == Ok(m)
    decreases t, 2
  {
    hide ConvertValue, ChildNamed, Utf8.Legal, Levels;
    var a, b := t.children[0], t.children[1];
    assert t.children == [a, b];
    assert |"name"| != |"value"|;
    MemberLevels(t);
    TwoLevels(a, b);
    OneOfEach(a, b);
    if NameReads(a, m.key) && ReadsAs(b, m.value) {
      ValueAccepted(max - 1, b, m.value);
    } else {
      ValueAccepted(max - 1, a, m.value);
    }
  }

  /** Over all trees: the reader delivers a value if and only if the tree is that value, with value
      elements nested no deeper than the limit. */
  lemma {:induction false} ReadsExactly(max: nat, t: XmlTree, v: Value)
    ensures ConvertValue(max, t) == Ok(v) <==> ReadsAs(t, v) && Levels(t) <= max
  {
    hide ConvertValue, ReadsAs, Levels;
    if ConvertValue(max, t) == Ok(v) {
      AcceptedReads(max, t);
    }
    if ReadsAs(t, v) && Levels(t) <= max {
      ValueAccepted(max, t, v);
    }
  }

  /** A value without a type element is the string that a string element with its text is, and an UTF-8
      fault where that is one. */
  lemma {:induction false} UntypedIsString(max: nat, text: seq<byte>, other: seq<byte>)
    ensures ConvertValue(max, XmlTree("value", text, []))
         == ConvertValue(max, XmlTree("value", other, [XmlTree("string", text, [])]))
         == if max < 1 then Fault(PARSE_ERROR) else if Utf8.Legal(text) then Ok(Str(text)) else Fault(INVALID_UTF8_ERROR)
  {
    hide Utf8.Legal;
  }

  // ---------------------------------------------------------------- faults of the reader

  predicate AllLegal(t: XmlTree)
    decreases t
  {
    Utf8.Legal(t.cdata) && forall k | 0 <= k < |t.children| :: AllLegal(t.children[k])
  }

  predicate ReaderFault(code: int, legal: bool) { code == PARSE_ERROR || (!legal && code == INVALID_UTF8_ERROR) }

  /** A tree that is refused is refused with a parse error, or an UTF-8 error if some text in it is not
      legal. */
  lemma {:induction false} FaultCodes(max: nat, t: XmlTree)
    ensures ConvertValue(max, t).Fault? ==> ReaderFault(ConvertValue(max, t).code, AllLegal(t))
    decreases t, 1
  {
    hide ConvertItems, ConvertMembers, ConvertScalar, Utf8.Legal;
    if |t.children| == 1 && max >= 1 {
      var child := t.children[0];
      assert AllLegal(t) ==> AllLegal(child);
      if child.name == "struct" {
        FaultCodesMembers(max, child.children, []);
        assert AllLegal(child) ==> forall k | 0 <= k < |child.children| :: AllLegal(child.children[k]);
      } else if child.name == "array" {
        if |child.children| == 1 {
          var data := child.children[0];
          FaultCodesItems(max, data.children);
          assert AllLegal(child) ==> AllLegal(data);
          assert AllLegal(data) ==> forall k | 0 <= k < |data.children| :: AllLegal(data.children[k]);
        }
      } else {
        FaultCodesScalar(child);
      }
    }
  }

  lemma {:induction false} FaultCodesScalar(t: XmlTree)
    ensures ConvertScalar(t.name, t.cdata).Fault? ==> ReaderFault(ConvertScalar(t.name, t.cdata).code, AllLegal(t))
  {
    hide Utf8.Legal, CString;
  }

  lemma {:induction false} FaultCodesItems(max: nat, ts: seq<XmlTree>)
    requires max >= 1
    ensures ConvertItems(max, ts).Fault? ==>
              ReaderFault(ConvertItems(max, ts).code, forall k | 0 <= k < |ts| :: AllLegal(ts[k]))
    decreases ts, 0
  {
    hide ConvertValue, AllLegal;
    if ts != [] {
      FaultCodes(max - 1, ts[0]);
      FaultCodesItems(max, ts[1..]);
    }
  }

  lemma {:induction false} FaultCodesMembers(max: nat, ts: seq<XmlTree>, before: seq<Member>)
    requires max >= 1
    ensures ConvertMembers(max, ts, before).Fault? ==>
              ReaderFault(ConvertMembers(max, ts, before).code, forall k | 0 <= k < |ts| :: AllLegal(ts[k]))
    decreases ts, 0
  {
    hide ConvertMember, AllLegal, SetMember;
    if ts != [] {
      FaultCodesMember(max, ts[0]);
      if ConvertMember(max, ts[0]).Ok? {
        var m := ConvertMember(max, ts[0]).value;
        FaultCodesMembers(max, ts[1..], SetMember(before, m.key, m.value));
      }
    }
  }

  lemma {:induction false} FaultCodesMember(max: nat, t: XmlTree)
    requires max >= 1
    ensures ConvertMember(max, t).Fault? ==> ReaderFault(ConvertMember(max, t).code, AllLegal(t))
    decreases t, 2
  {
    hide ConvertValue, ChildNamed, Utf8.Legal;
    var n, k := ChildNamed(t.children, "name"), ChildNamed(t.children, "value");
    if |t.children| == 2 {
      if k < 2 {
        FaultCodes(max - 1, t.children[k]);
        assert AllLegal(t) ==> AllLegal(t.children[k]);
      }
      if n < 2 {
        assert AllLegal(t) ==> AllLegal(t.children[n]);
      }
    }
  }

  // ---------------------------------------------------------------- trees that are calls

  ghost predicate ParamsReads(t: XmlTree, params: seq<Value>)
  {
    && t.name == "params" && |t.children| == |params|
    && forall k | 0 <= k < |params| :: ParamReads(t.children[k], params[k])
  }

  ghost predicate ParamReads(t: XmlTree, v: Value)
  {
    t.name == "param" && |t.children| == 1 && ReadsAs(t.children[0], v)
  }

  predicate MethodNameReads(t: XmlTree, name: seq<byte>)
  {
    IsLeaf(t, "methodName") && Utf8.Legal(name) && name == CString(t.cdata)
  }

  /** A call holds a method name and its parameters, in either order; without parameters it may do
      without the element for them. */
  ghost predicate CallReads(t: XmlTree, c: Call)
  {
    && t.name == "methodCall"
    && (|| (|t.children| == 1 && MethodNameReads(t.children[0], c.methodName) && c.params == [])
        || (|t.children| == 2 && MethodNameReads(t.children[0], c.methodName) && ParamsReads(t.children[1], c.params))
        || (|t.children| == 2 && MethodNameReads(t.children[1], c.methodName) && ParamsReads(t.children[0], c.params)))
  }

  lemma {:induction false} ParamListExactly(nesting: nat, ts: seq<XmlTree>, params: seq<Value>)
    ensures ConvertParamList(nesting, ts) == Ok(params)
            <==> && |ts| == |params| && (forall k | 0 <= k < |params| :: ParamReads(ts[k], params[k]))
                 && MostLevels(ts) <= nesting
    decreases |ts|
  {
    hide ConvertValue, ReadsAs, Levels;
    if ts != [] {
      if params != [] {
        ParamListExactly(nesting, ts[1..], params[1..]);
        assert [params[0]] + params[1..] == params;
        assert forall k | 0 <= k < |params[1..]| && k + 1 < |ts| :: ts[1..][k] == ts[k + 1] && params[1..][k] == params[k + 1];
        ParamExactly(nesting, ts[0], params[0]);
        ParamsSplit(ts, params);
      }
    }
  }

  lemma {:induction false} ParamsSplit(ts: seq<XmlTree>, params: seq<Value>)
    requires ts != [] && params != []
    ensures (|ts| == |params| && forall k | 0 <= k < |params| :: ParamReads(ts[k], params[k]))
            <==> && ParamReads(ts[0], params[0]) && |ts[1..]| == |params[1..]|
                 && (forall k | 0 <= k < |params[1..]| :: ParamReads(ts[1..][k], params[1..][k]))
  {
    hide ParamReads;
    if |ts| == |params| && ParamReads(ts[0], params[0]) && forall k | 0 <= k < |params[1..]| :: ParamReads(ts[1..][k], params[1..][k]) {
      forall k | 0 <= k < |params|
        ensures ParamReads(ts[k], params[k])
      {
        assert k > 0 ==> ts[k] == ts[1..][k - 1] && params[k] == params[1..][k - 1];
      }
    }
    if |ts| == |params| && forall k | 0 <= k < |params| :: ParamReads(ts[k], params[k]) {
      forall k | 0 <= k < |params[1..]|
        ensures ParamReads(ts[1..][k], params[1..][k])
      {
        assert ParamReads(ts[k + 1], params[k + 1]);
      }
    }
  }

  lemma {:induction false} ParamExactly(nesting: nat, t: XmlTree, v: Value)
    ensures t.name == "param" && |t.children| == 1 ==>
              && Levels(t) == Levels(t.children[0])
              && (ConvertValue(nesting, t.children[0]) == Ok(v) <==> ParamReads(t, v) && Levels(t) <= nesting)
  {
    hide ConvertValue, ReadsAs;
    if t.name == "param" && |t.children| == 1 {
      assert |"param"| == |"value"| && "param"[0] != "value"[0];
      assert t.children == [t.children[0]];
      OneLevel(t.children[0]);
      ReadsExactly(nesting, t.children[0], v);
    }
  }

  lemma {:induction false} ParamsExactly(nesting: nat, t: XmlTree, params: seq<Value>)
    ensures ConvertParams(nesting, t) == Ok(params) <==> ParamsReads(t, params) && Levels(t) <= nesting
  {
    hide ConvertParamList, ParamReads;
    ParamListExactly(nesting, t.children, params);
    assert |"params"| != |"value"|;
  }

  /** Over all trees: a call is delivered if and only if the tree is that call. */
  lemma {:induction false} CallExactly(nesting: nat, t: XmlTree, c: Call)
    requires t.name == "methodCall"
    ensures ParseCallChildren(nesting, t) == Ok(c) <==> CallReads(t, c) && Levels(t) <= nesting
  {
    hide ConvertParams, ParamsReads, ChildNamed, CString, Utf8.Legal;
    assert |"methodCall"| != |"value"| && |"methodName"| != |"value"| && |"methodName"| != |"params"|;
    if |t.children| == 1 {
      assert t.children == [t.children[0]];
      OneLevel(t.children[0]);
    } else if |t.children| == 2 {
      var a, b := t.children[0], t.children[1];
      assert t.children == [a, b];
      TwoLevels(a, b);
      ParamsExactly(nesting, a, c.params);
      ParamsExactly(nesting, b, c.params);
      CallOfTwo(nesting, t, a, b, c);
    }
  }

  lemma {:induction false} CallOfTwo(nesting: nat, t: XmlTree, a: XmlTree, b: XmlTree, c: Call)
    requires t.name == "methodCall" && t.children == [a, b]
    ensures ParseCallChildren(nesting, t) == Ok(c)
            <==> || (MethodNameReads(a, c.methodName) && ConvertParams(nesting, b) == Ok(c.params))
                 || (MethodNameReads(b, c.methodName) && ConvertParams(nesting, a) == Ok(c.params))
  {
    hide ConvertParamList, ChildNamed, CString, Utf8.Legal;
    assert |"methodName"| != |"params"|;
    assert [a, b][0] == a && [a, b][1] == b;
  }

  /** Names that are not legal UTF-8 are UTF-8 faults: that of a member, and that of a method, up to its
      first NUL. */
  lemma {:induction false} IllegalNames(max: nat, name: XmlTree, other: XmlTree)
    requires max >= 1 && name.children == []
    ensures name.name == "name" && other.name == "value" && !Utf8.Legal(name.cdata) ==>
              && ConvertMember(max, XmlTree("member", [], [name, other])) == Fault(INVALID_UTF8_ERROR)
              && ConvertMember(max, XmlTree("member", [], [other, name])) == Fault(INVALID_UTF8_ERROR)
    ensures name.name == "methodName" && other.name != "methodName" && !Utf8.Legal(CString(name.cdata)) ==>
              && ParseCallChildren(max, XmlTree("methodCall", [], [name])) == Fault(INVALID_UTF8_ERROR)
              && ParseCallChildren(max, XmlTree("methodCall", [], [name, other])) == Fault(INVALID_UTF8_ERROR)
              && ParseCallChildren(max, XmlTree("methodCall", [], [other, name])) == Fault(INVALID_UTF8_ERROR)
  {
    hide ChildNamed, Utf8.Legal, CString, ConvertValue, ConvertParams;
    assert |"name"| != |"value"|;
    if name.name != other.name {
      OneOfEach(name, other);
      OneOfEach(other, name);
    }
    assert [name][0] == name;
  }

  /** The texts that parse to a call: no longer than the limit, well-formed, and a tree that is the call,
      nested no deeper than the limit. */
  lemma {:induction false} CallTextExactly(limits: Limits, text: seq<byte>, c: Call)
    ensures ParseCall(limits, text) == Ok(c)
            <==> && |text| <= limits.xmlSize && ParseXml(text).Ok?
                 && CallReads(ParseXml(text).value, c) && Levels(ParseXml(text).value) <= limits.nesting
  {
    hide ParseXml, ParseCallChildren, Levels;
    if ParseXml(text).Ok? && ParseXml(text).value.name == "methodCall" {
      CallExactly(limits.nesting, ParseXml(text).value, c);
    }
  }

  // ---------------------------------------------------------------- trees that are responses

  /** A fault's struct names an integer code and a text without NULs, and perhaps other things. */
  ghost predicate FaultReads(v: Value, code: int32, text: seq<byte>)
  {
    && v.Struct? && 0 !in text
    && Member(Ascii("faultCode"), Int(code)) in v.members && Member(Ascii("faultString"), Str(text)) in v.members
  }

  /** A response holds one parameter, or a fault. */
  ghost predicate ResponseReads(t: XmlTree, r: Response)
  {
    && t.name == "methodResponse" && |t.children| == 1
    && match r
       case Success(v) => ParamsReads(t.children[0], [v])
       case Failure(code, text) =>
         && t.children[0].name == "fault" && |t.children[0].children| == 1
         && exists v: Value :: ReadsAs(t.children[0].children[0], v) && FaultReads(v, code, text)
  }

  lemma {:induction false} FaultExactly(v: Value, code: int32, text: seq<byte>)
    requires KeysDistinct(v)
    ensures InterpretFault(v) == Ok(Failure(code, text)) <==> FaultReads(v, code, text)
  {
    hide KeyIndex, Ascii;
    if v.Struct? {
      MemberIs(v.members, Ascii("faultCode"), Int(code));
      MemberIs(v.members, Ascii("faultString"), Str(text));
    }
  }

  lemma {:induction false} MemberIs(ms: seq<Member>, key: seq<byte>, v: Value)
    requires DistinctKeys(ms)
    ensures Member(key, v) in ms <==> KeyIndex(ms, key) < |ms| && ms[KeyIndex(ms, key)].value == v
  {
    hide KeyIndex;
    if Member(key, v) in ms {
      var i :| 0 <= i < |ms| && ms[i] == Member(key, v);
      assert KeyIndex(ms, key) == i;
    }
    if KeyIndex(ms, key) < |ms| && ms[KeyIndex(ms, key)].value == v {
      assert ms[KeyIndex(ms, key)] == Member(key, v);
    }
  }

  lemma {:induction false} NotSuccess(v: Value)
    ensures InterpretFault(v).Ok? ==> InterpretFault(v).value.Failure?
  {
    hide KeyIndex, Ascii;
  }

  lemma {:induction false} FaultElementExactly(nesting: nat, t: XmlTree, code: int32, text: seq<byte>)
    requires t.name == "fault"
    ensures ParseFaultElement(nesting, t) == Ok(Failure(code, text))
            <==> && |t.children| == 1 && Levels(t) <= nesting
                 && exists v: Value :: ReadsAs(t.children[0], v) && FaultReads(v, code, text)
  {
    hide ConvertValue, ReadsAs, FaultReads, InterpretFault;
    if |t.children| == 1 {
      var child := t.children[0];
      assert t.children == [child];
      OneLevel(child);
      assert |"fault"| == |"value"| && "fault"[0] != "value"[0];
      match ConvertValue(nesting, child) {
        case Ok(v) =>
          Codec.ConvertSound(nesting, child);
          FaultExactly(v, code, text);
          ReadsExactly(nesting, child, v);
        case Fault(_) =>
      }
      forall v: Value | ReadsAs(child, v) && Levels(child) <= nesting
        ensures ConvertValue(nesting, child) == Ok(v)
      {
        ReadsExactly(nesting, child, v);
      }
    }
  }

  /** The texts that parse to a response. */
  lemma {:induction false} ResponseTextExactly(limits: Limits, text: seq<byte>, r: Response)
    ensures ParseResponse(limits, text) == Ok(r)
            <==> && |text| <= limits.xmlSize && ParseXml(text).Ok?
                 && ResponseReads(ParseXml(text).value, r) && Levels(ParseXml(text).value) <= limits.nesting
  {
    hide ParseXml, ParseParamsElement, ParseFaultElement, ParamsReads, ReadsAs, FaultReads;
    if ParseXml(text).Ok? && ParseXml(text).value.name == "methodResponse" && |ParseXml(text).value.children| == 1 {
      var t := ParseXml(text).value;
      var child := t.children[0];
      assert t.children == [child];
      OneLevel(child);
      assert |"methodResponse"| != |"value"| && |"fault"| != |"params"|;
      ResponseElement(limits.nesting, child, r);
    }
  }

  lemma {:induction false} ResponseElement(nesting: nat, t: XmlTree, r: Response)
    ensures t.name == "params" ==>
              (ParseParamsElement(nesting, t) == Ok(r) <==> r.Success? && ParamsReads(t, [r.value]) && Levels(t) <= nesting)
    ensures t.name == "fault" ==>
              (ParseFaultElement(nesting, t) == Ok(r)
               <==> && r.Failure? && |t.children| == 1 && Levels(t) <= nesting
                    && exists v: Value :: ReadsAs(t.children[0], v) && FaultReads(v, r.code, r.text))
    ensures ParamsReads(t, [if r.Success? then r.value else Nil]) ==> t.name == "params"
  {
    hide ConvertParams, ConvertValue, ReadsAs, FaultReads, InterpretFault, Levels, ParamReads;
    match r {
      case Success(v) =>
        ParamsExactly(nesting, t, [v]);
        if t.name == "fault" && |t.children| == 1 && ConvertValue(nesting, t.children[0]).Ok? {
          NotSuccess(ConvertValue(nesting, t.children[0]).value);
        }
        if ParseParamsElement(nesting, t) == Ok(r) {
          assert ConvertParams(nesting, t).value == [v];
        }
      case Failure(code, text) =>
        if t.name == "fault" {
          FaultElementExactly(nesting, t, code, text);
        }
    }
  }
}
