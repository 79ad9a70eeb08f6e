/**
 Dispatching calls (registry.c) and system.multicall (system_method.c), which dispatches a list of
 calls. The two call each other; the recursion ends because a call of system.multicall inside
 system.multicall is refused.

 Handlers are functions of their parameters.
 */
module Multicall {
  import opened Bytes
  import opened Formats
  import opened Messages
  import opened Values
  import opened Xml

  /** What a call delivers: a value, or a fault's code and text. */
  datatype Reply = Returned(value: Value) | Faulted(code: int32, text: seq<byte>)

  datatype Handler = Method(run: Value -> Reply) | SystemMulticall

  /** `text` is the message the library itself gives with a fault code. */
  datatype Registry = Registry(
    methods: map<seq<byte>, Handler>,
    fallback: Option<(seq<byte>, Value) -> Reply>,
    preinvoke: Option<(seq<byte>, Value) -> Option<(int32, seq<byte>)>>,
    text: int -> seq<byte>)

  function MulticallName(): seq<byte> { Ascii("system.multicall") }

  /** system_multicall is private to its file and registered under its own name only. */
  predicate Wired(reg: Registry)
  {
    forall name | name in reg.methods :: reg.methods[name].SystemMulticall? ==> name == MulticallName()
  }

  // ---------------------------------------------------------------- reading one call

  /** What call_one_method takes from one entry: a method name without NULs and an array of
      parameters. */
  function CallInfo(info: Value): Result<(seq<byte>, Value)>
  {
    if !info.Struct? then Fault(TYPE_ERROR)
    else
      var i := KeyIndex(info.members, Ascii("methodName"));
      if i == |info.members| then Fault(INDEX_ERROR)
      else if !info.members[i].value.Str? || 0 in info.members[i].value.s then Fault(TYPE_ERROR)
      else
        var k := KeyIndex(info.members, Ascii("params"));
        if k == |info.members| then Fault(INDEX_ERROR)
        else if !info.members[k].value.Array? then Fault(TYPE_ERROR)
        else Ok((info.members[i].value.s, info.members[k].value))
  }

  /** The parameters of system.multicall: one array. */
  function CallList(params: Value): Result<seq<Value>>
  {
    if !params.Array? then Fault(TYPE_ERROR)
    else if params.items == [] then Fault(INDEX_ERROR)
    else if !params.items[0].Array? then Fault(TYPE_ERROR)
    else if |params.items| > 1 then Fault(INDEX_ERROR)
    else Ok(params.items[0].items)
  }

  /** CallList is what the decomposer makes of the format "(A)". */
  lemma {:induction false} CallListDecomposes(params: Value)
    ensures TakeValue(params, "(A)", [Wanted])
         == match CallList(params)
            case Ok(calls) => Taken("", [], [CValue(Array(calls))])
            case Fault(code) => Failed(code)
  {
    if params.Array? {
      assert "(A)"[1..] == "A)" && "A)"[1..] == ")" && ")"[1..] == "";
      var items := params.items;
      if items != [] && items[0].Array? {
        assert Array(items[0].items) == items[0];
        StoreAll(")", 1, [], [CValue(items[0])]);
        assert seq(1, k => Wanted) + [] == [Wanted];
        assert TakeValue(items[0], "A)", [Wanted]) == Taken(")", [], [CValue(items[0])]);
        if |items| == 1 {
          assert TakeArray(items[1..], ")", []) == Taken(")", [], []);
        } else {
          assert TakeArray(items[1..], ")", []) == Failed(INDEX_ERROR);
        }
      }
    }
  }

  /** One turn of the decomposer over a struct, for a key passed as a C string. */
  lemma {:induction false} KeyTurn(ms: seq<Member>, key: seq<byte>, f: string, slots: seq<Slot>)
    requires 0 !in key && (slots != [] ==> slots[0].Wanted?)
    ensures TakeStruct(ms, "s:" + f, [Given(CChars(key))] + slots)
         == var i := KeyIndex(ms, key);
            if i == |ms| then Failed(INDEX_ERROR)
            else match TakeValue(ms[i].value, f, slots)
              case Failed(code) => Failed(code)
              case Broken => Broken
              case Taken(rest, left, filled) =>
                if !StartsWith(rest, ',') && !StartsWith(rest, '}') then Broken
                else Filled([CChars(key)] + filled, TakeStruct(ms, if rest[0] == ',' then rest[1..] else rest, left))
  {
    hide TakeValue, KeyIndex, CString, Filled;
    var all := [Given(CChars(key))] + slots;
    assert all[1..] == slots && Keys(slots) == [] && Keys(all) == [CChars(key)];
    assert ("s:" + f)[1..] == ":" + f && (":" + f)[1..] == f;
    assert [CChars(key)][1..] == [] && [CChars(key)][..1] == [CChars(key)];
    assert BuildValue("s:" + f, [CChars(key)]) == Built(Str(key), ":" + f, []);
  }

  lemma {:induction false} TakeText(v: Value, tail: string, more: seq<Slot>)
    requires !StartsWith(tail, '#')
    ensures TakeValue(v, "s" + tail, [Wanted] + more)
         == if !v.Str? || 0 in v.s then Failed(TYPE_ERROR) else Taken(tail, more, [CChars(v.s)])
  {
    assert ("s" + tail)[1..] == tail && ([Wanted] + more)[1..] == more;
  }

  lemma {:induction false} TakeList(v: Value, tail: string, more: seq<Slot>)
    ensures TakeValue(v, "A" + tail, [Wanted] + more)
         == if !v.Array? then Failed(TYPE_ERROR) else Taken(tail, more, [CValue(v)])
  {
    assert ("A" + tail)[1..] == tail && ([Wanted] + more)[1..] == more;
  }

  lemma {:induction false} NoNuls()
    ensures 0 !in Ascii("methodName") && 0 !in Ascii("params")
  {
  }

  lemma {:induction false} ParamsTurn(ms: seq<Member>, params: seq<byte>)
    requires 0 !in params
    ensures var k := KeyIndex(ms, params);
            TakeStruct(ms, "s:A,*}", [Given(CChars(params)), Wanted])
            == if k == |ms| then Failed(INDEX_ERROR)
               else if !ms[k].value.Array? then Failed(TYPE_ERROR)
               else Taken("}", [], [CChars(params), CValue(ms[k].value)])
  {
    hide TakeStruct, KeyIndex;
    var k := KeyIndex(ms, params);
    assert [Given(CChars(params)), Wanted] == [Given(CChars(params))] + ([Wanted] + []);
    assert "s:A,*}" == "s:" + ("A" + ",*}");
    KeyTurn(ms, params, "A" + ",*}", [Wanted] + []);
    if k < |ms| {
      TakeList(ms[k].value, ",*}", []);
      assert ",*}"[1..] == "*" + "}";
      TakesStar(ms, "}", []);
      assert [CChars(params)] + [CValue(ms[k].value)] + [] == [CChars(params), CValue(ms[k].value)];
    }
  }

  lemma {:induction false} NameTurn(ms: seq<Member>, name: seq<byte>, params: seq<byte>)
    requires 0 !in name
    ensures var i := KeyIndex(ms, name);
            TakeStruct(ms, "s:s,s:A,*}", [Given(CChars(name)), Wanted, Given(CChars(params)), Wanted])
            == if i == |ms| then Failed(INDEX_ERROR)
               else if !ms[i].value.Str? || 0 in ms[i].value.s then Failed(TYPE_ERROR)
               else Filled([CChars(name), CChars(ms[i].value.s)], TakeStruct(ms, "s:A,*}", [Given(CChars(params)), Wanted]))
  {
    hide TakeStruct, KeyIndex, Filled;
    var i := KeyIndex(ms, name);
    var second := [Given(CChars(params)), Wanted];
    assert [Given(CChars(name)), Wanted, Given(CChars(params)), Wanted] == [Given(CChars(name))] + ([Wanted] + second);
    assert "s:s,s:A,*}" == "s:" + ("s" + ",s:A,*}");
    KeyTurn(ms, name, "s" + ",s:A,*}", [Wanted] + second);
    if i < |ms| {
      TakeText(ms[i].value, ",s:A,*}", second);
      assert ",s:A,*}"[1..] == "s:A,*}";
      if ms[i].value.Str? {
        assert [CChars(name)] + [CChars(ms[i].value.s)] == [CChars(name), CChars(ms[i].value.s)];
      }
    }
  }

  /** CallInfo is what the decomposer makes of the format call_one_method passes. */
  lemma {:induction false} CallInfoDecomposes(info: Value)
    ensures var name, params := Ascii("methodName"), Ascii("params");
            TakeValue(info, "{s:s,s:A,*}", [Given(CChars(name)), Wanted, Given(CChars(params)), Wanted])
            == match CallInfo(info)
               case Ok((methodName, list)) => Taken("", [], [CChars(name), CChars(methodName), CChars(params), CValue(list)])
               case Fault(code) => Failed(code)
  {
    hide TakeStruct, KeyIndex, Ascii;
    if info.Struct? {
      assert "{s:s,s:A,*}"[1..] == "s:s,s:A,*}" && "}"[1..] == "";
      NoNuls();
      NameTurn(info.members, Ascii("methodName"), Ascii("params"));
      ParamsTurn(info.members, Ascii("params"));
    }
  }

  // ---------------------------------------------------------------- dispatching

  /** xmlrpc_dispatchCall */
  function Dispatch(reg: Registry, name: seq<byte>, params: Value): Reply
    requires Wired(reg)
    decreases if name == MulticallName() then 3 else 0
  {
    var refused := match reg.preinvoke case Some(check) => check(name, params) case None => None;
    if refused.Some? then Faulted(refused.value.0, refused.value.1)
    else if name in reg.methods then
      match reg.methods[name]
      case Method(run) => run(params)
      case SystemMulticall => MulticallReply(reg, params)
    else match reg.fallback
      case Some(run) => run(name, params)
      case None => Faulted(NO_SUCH_METHOD_ERROR, reg.text(NO_SUCH_METHOD_ERROR))
  }

  /** system_multicall */
  function MulticallReply(reg: Registry, params: Value): Reply
    requires Wired(reg)
    decreases 2
  {
    match CallList(params)
    case Fault(code) => OwnFault(reg, code)
    case Ok(calls) => Returned(Array(seq(|calls|, k requires 0 <= k < |calls| => Entry(CallOne(reg, calls[k])))))
  }

  /** call_one_method, before its result is wrapped. */
  function CallOne(reg: Registry, info: Value): Reply
    requires Wired(reg)
    decreases 1
  {
    match CallInfo(info)
    case Fault(code) => OwnFault(reg, code)
    case Ok((name, params)) =>
      if name == MulticallName() then OwnFault(reg, REQUEST_REFUSED_ERROR)
      else Dispatch(reg, name, params)
  }

  function OwnFault(reg: Registry, code: int): Reply
  {
    if INT32_MIN <= code <= INT32_MAX then Faulted(code, reg.text(code)) else Faulted(0, [])
  }

  /** How one result appears in the list. */
  function Entry(r: Reply): Value
  {
    match r
    case Returned(v) => Array([v])
    case Faulted(code, text) => FaultValue(code, CString(text))
  }

  // ---------------------------------------------------------------- what multicall promises

  /** system.multicall is installed, and calling it with these parameters passes the pre-invoke check. */
  predicate Serves(reg: Registry, params: Value)
  {
    && Wired(reg) && MulticallName() in reg.methods && reg.methods[MulticallName()].SystemMulticall?
    && (reg.preinvoke.Some? ==> reg.preinvoke.value(MulticallName(), params) == None)
  }

  /** The parameters that carry a list of calls. */
  function Calls(calls: seq<Value>): Value { Array([Array(calls)]) }

  /** The list that multicall returns. */
  function Replies(reg: Registry, calls: seq<Value>): (entries: seq<Value>)
    requires Wired(reg)
    ensures MulticallReply(reg, Calls(calls)) == Returned(Array(entries)) && |entries| == |calls|
  {
    hide CallInfo, CString, CallOne, Entry;
    assert [Array(calls)][0] == Array(calls);
    MulticallReply(reg, Calls(calls)).value.items
  }

  lemma {:induction false} ReplyAt(reg: Registry, calls: seq<Value>, k: nat)
    requires Wired(reg) && k < |calls|
    ensures Replies(reg, calls)[k] == Entry(CallOne(reg, calls[k]))
  {
    hide CallOne, Entry;
    assert [Array(calls)][0] == Array(calls);
  }

  /** Whatever the parameters: the call returns if and only if they are one list of calls, and then the
      reply has an entry for every one. A call that is malformed, refused or fails leaves its fault
      there; another leaves, in an array of one, what it returns when dispatched alone. */
  lemma {:induction false} MulticallIsEachAlone(reg: Registry, params: Value)
    requires Serves(reg, params)
    ensures var r := Dispatch(reg, MulticallName(), params);
            && (r.Returned? <==> exists calls: seq<Value> :: params == Calls(calls))
            && (r.Faulted? ==> CallList(params).Fault? && r == Faulted(CallList(params).code, reg.text(CallList(params).code)))
            && forall calls | params == Calls(calls) ::
                 r == Returned(Array(Replies(reg, calls))) && forall i | 0 <= i < |calls| :: EntryRight(reg, calls, i)
  {
    hide CallInfo, CString, MulticallName, FaultValue, EntryRight, CallOne, Replies, Entry;
    if CallList(params).Ok? {
      assert params == Calls(CallList(params).value) by { assert params.items == [params.items[0]]; }
    }
    forall calls, i | params == Calls(calls) && 0 <= i < |calls|
      ensures EntryRight(reg, calls, i)
    {
      EachAlone(reg, calls, i);
    }
  }

  /** The entry of a call tells what that call alone delivers. */
  ghost predicate EntryRight(reg: Registry, calls: seq<Value>, i: nat)
    requires Wired(reg) && i < |calls|
  {
    var reply := match CallInfo(calls[i])
      case Fault(code) => OwnFault(reg, code)
      case Ok((name, list)) =>
        if name == MulticallName() then OwnFault(reg, REQUEST_REFUSED_ERROR) else Dispatch(reg, name, list);
    && (reply.Returned? ==> Replies(reg, calls)[i] == Array([reply.value]))
    && (reply.Faulted? ==> Replies(reg, calls)[i] == FaultValue(reply.code, CString(reply.text)))
  }

  lemma {:induction false} EachAlone(reg: Registry, calls: seq<Value>, i: nat)
    requires Wired(reg) && i < |calls|
    ensures EntryRight(reg, calls, i)
  {
    hide CallInfo, CString, MulticallName, FaultValue, Replies, Dispatch;
    ReplyAt(reg, calls, i);
  }

  /** A malformed call has one of two codes. */
  lemma {:induction false} MalformedCodes(info: Value)
    ensures CallInfo(info).Fault? ==> CallInfo(info).code in {TYPE_ERROR, INDEX_ERROR}
  {
    hide KeyIndex, Ascii;
  }

  /** No call sees its neighbours: the reply to two lists joined is the two replies joined. */
  lemma {:induction false} RepliesJoin(reg: Registry, a: seq<Value>, b: seq<Value>)
    requires Wired(reg)
    ensures Replies(reg, a + b) == Replies(reg, a) + Replies(reg, b)
  {
    hide CallOne, Entry;
    var whole := Replies(reg, a + b);
    forall k | 0 <= k < |a + b|
      ensures whole[k] == (Replies(reg, a) + Replies(reg, b))[k]
    {
      ReplyAt(reg, a + b, k);
      if k < |a| { ReplyAt(reg, a, k); } else { ReplyAt(reg, b, k - |a|); }
    }
  }

  /** Another call in place of the i-th changes the i-th entry, to what that call alone gives, and
      nothing else. */
  lemma {:induction false} OneCallChanged(reg: Registry, calls: seq<Value>, i: nat, other: Value)
    requires Wired(reg) && i < |calls|
    ensures Replies(reg, calls[i := other]) == Replies(reg, calls)[i := Replies(reg, [other])[0]]
  {
    hide Replies;
    assert calls == calls[..i] + [calls[i]] + calls[i + 1..];
    assert calls[i := other] == calls[..i] + [other] + calls[i + 1..];
    RepliesJoin(reg, calls[..i] + [calls[i]], calls[i + 1..]);
    RepliesJoin(reg, calls[..i], [calls[i]]);
    RepliesJoin(reg, calls[..i] + [other], calls[i + 1..]);
    RepliesJoin(reg, calls[..i], [other]);
  }

  // ---------------------------------------------------------------- why nested calls are refused

  /** Dispatching, with the greatest number of dispatches in progress at once; `refuse` tells whether
      calls of system.multicall within it are refused. */
  function Traced(reg: Registry, refuse: bool, name: seq<byte>, params: Value): (Reply, nat)
    decreases params, 0
  {
    var refused := match reg.preinvoke case Some(check) => check(name, params) case None => None;
    if refused.Some? then (Faulted(refused.value.0, refused.value.1), 1)
    else if name in reg.methods then
      match reg.methods[name]
      case Method(run) => (run(params), 1)
      case SystemMulticall =>
        (match CallList(params)
         case Fault(code) => (OwnFault(reg, code), 1)
         case Ok(calls) =>
           var (entries, levels) := TracedCalls(reg, refuse, calls);
           (Returned(Array(entries)), levels + 1))
    else match reg.fallback
      case Some(run) => (run(name, params), 1)
      case None => (Faulted(NO_SUCH_METHOD_ERROR, reg.text(NO_SUCH_METHOD_ERROR)), 1)
  }

  function TracedCalls(reg: Registry, refuse: bool, calls: seq<Value>): (seq<Value>, nat)
    decreases calls, 0
  {
    if calls == [] then ([], 0)
    else
      var (reply, levels) := TracedOne(reg, refuse, calls[0]);
      var (entries, others) := TracedCalls(reg, refuse, calls[1..]);
      ([Entry(reply)] + entries, Max(levels, others))
  }

  function TracedOne(reg: Registry, refuse: bool, info: Value): (Reply, nat)
    decreases info, 1
  {
    match CallInfo(info)
    case Fault(code) => (OwnFault(reg, code), 0)
    case Ok((name, params)) =>
      if refuse && name == MulticallName() then (OwnFault(reg, REQUEST_REFUSED_ERROR), 0)
      else Traced(reg, refuse, name, params)
  }

  /** With the refusal at most two dispatches are in progress, whatever is called. */
  lemma {:induction false} RefusalBounds(reg: Registry, name: seq<byte>, params: Value)
    requires Wired(reg)
    ensures Traced(reg, true, name, params).0 == Dispatch(reg, name, params)
    ensures Traced(reg, true, name, params).1 <= if name == MulticallName() then 2 else 1
    decreases if name == MulticallName() then 2 else 0, 0
  {
    hide MulticallName, CallInfo, Entry, CString;
    if name in reg.methods && reg.methods[name].SystemMulticall? && CallList(params).Ok? {
      RefusalBoundsCalls(reg, CallList(params).value);
    }
  }

  lemma {:induction false} RefusalBoundsCalls(reg: Registry, calls: seq<Value>)
    requires Wired(reg)
    ensures TracedCalls(reg, true, calls).1 <= 1
    ensures TracedCalls(reg, true, calls).0
         == seq(|calls|, k requires 0 <= k < |calls| => Entry(CallOne(reg, calls[k])))
    decreases 1, |calls|
  {
    hide MulticallName, CallInfo, Entry, CString, Dispatch, Traced;
    if calls != [] {
      RefusalBoundsCalls(reg, calls[1..]);
      match CallInfo(calls[0]) {
        case Ok((name, params)) =>
          if name != MulticallName() {
            RefusalBounds(reg, name, params);
          }
        case Fault(_) =>
      }
    }
  }

  /** A call of system.multicall whose one call is such a call, and so on, `k` deep. */
  function Nested(k: nat): (params: Value)
    ensures params.Array?
  {
    if k == 0 then Calls([])
    else Calls([Struct([Member(Ascii("methodName"), Str(MulticallName())), Member(Ascii("params"), Nested(k - 1))])])
  }

  /** Without the refusal there is no bound. */
  lemma {:induction false} UnboundedWithout(reg: Registry, k: nat)
    requires Wired(reg) && MulticallName() in reg.methods && reg.methods[MulticallName()].SystemMulticall? && reg.preinvoke.None?
    ensures Traced(reg, false, MulticallName(), Nested(k)).1 == k + 1
  {
    hide Ascii, Entry, MulticallName;
    if k > 0 {
      UnboundedWithout(reg, k - 1);
      var members := [Member(Ascii("methodName"), Str(MulticallName())), Member(Ascii("params"), Nested(k - 1))];
      NestedCall(members, Nested(k - 1));
      assert TracedCalls(reg, false, []) == ([], 0);
      assert [Struct(members)][1..] == [];
    }
  }

  lemma {:induction false} NestedCall(members: seq<Member>, params: Value)
    requires members == [Member(Ascii("methodName"), Str(MulticallName())), Member(Ascii("params"), params)] && params.Array?
    ensures CallInfo(Struct(members)) == Ok((MulticallName(), params))
  {
    hide KeyIndex;
    KeyIndexIs(members, Ascii("methodName"), 0);
    assert |Ascii("methodName")| != |Ascii("params")|;
    KeyIndexIs(members, Ascii("params"), 1);
  }

  /** A result can be told from a fault by its type, and read back from the entry. */
  lemma {:induction false} EntryTells(r: Reply)
    ensures Entry(r).Array? <==> r.Returned?
    ensures r.Returned? ==> Entry(r).items == [r.value]
    ensures r.Faulted? && 0 !in r.text ==> InterpretFault(Entry(r)) == Ok(Failure(r.code, r.text))
  {
    hide CString, Ascii;
    if r.Faulted? {
      FaultValueIs(r.code, CString(r.text));
    }
  }

  /** Adding methods keeps the recursion bounded. */
  lemma {:induction false} AddingKeepsWired(reg: Registry, name: seq<byte>, run: Value -> Reply)
    requires Wired(reg)
    ensures Wired(reg.(methods := reg.methods[name := Method(run)]))
    ensures Wired(reg.(methods := reg.methods[MulticallName() := SystemMulticall]))
  {
    hide MulticallName;
  }

  // ---------------------------------------------------------------- who answers a call

  /** What an application does to a new registry. */
  datatype Setup =
    | AddMethod(name: seq<byte>, run: Value -> Reply)
    | SetDefault(answer: (seq<byte>, Value) -> Reply)
    | SetPreinvoke(check: (seq<byte>, Value) -> Option<(int32, seq<byte>)>)

  function NewRegistry(text: int -> seq<byte>): Registry
  {
    Registry(map[MulticallName() := SystemMulticall], None, None, text)
  }

  function Apply(reg: Registry, setup: Setup): Registry
  {
    match setup
    case AddMethod(name, run) => reg.(methods := reg.methods[name := Method(run)])
    case SetDefault(answer) => reg.(fallback := Some(answer))
    case SetPreinvoke(check) => reg.(preinvoke := Some(check))
  }

  function Configured(text: int -> seq<byte>, setups: seq<Setup>): (reg: Registry)
    ensures Wired(reg) && reg.text == text
  {
    if setups == [] then NewRegistry(text)
    else
      var before, last := Configured(text, setups[..|setups| - 1]), setups[|setups| - 1];
      ApplyKeepsWired(before, last);
      Apply(before, last)
  }

  lemma {:induction false} ApplyKeepsWired(reg: Registry, setup: Setup)
    requires Wired(reg)
    ensures Wired(Apply(reg, setup)) && Apply(reg, setup).text == reg.text
  {
    hide MulticallName;
  }

  /** Setup `k` is the last of its kind: no later one adds this method, sets a default, or a check. */
  ghost predicate LastAdded(setups: seq<Setup>, k: nat, name: seq<byte>)
  {
    && k < |setups| && setups[k].AddMethod? && setups[k].name == name
    && forall j | k < j < |setups| && setups[j].AddMethod? :: setups[j].name != name
  }

  ghost predicate LastDefault(setups: seq<Setup>, k: nat)
  {
    k < |setups| && setups[k].SetDefault? && forall j | k < j < |setups| :: !setups[j].SetDefault?
  }

  ghost predicate LastCheck(setups: seq<Setup>, k: nat)
  {
    k < |setups| && setups[k].SetPreinvoke? && forall j | k < j < |setups| :: !setups[j].SetPreinvoke?
  }

  ghost predicate Added(setups: seq<Setup>, name: seq<byte>)
  {
    exists k | 0 <= k < |setups| :: setups[k].AddMethod? && setups[k].name == name
  }

  lemma {:induction false} LastOrBefore(text: int -> seq<byte>, setups: seq<Setup>)
    requires setups != []
    ensures Configured(text, setups) == Apply(Configured(text, setups[..|setups| - 1]), setups[|setups| - 1])
  {
    hide Apply;
  }

  lemma {:induction false} MethodIs(text: int -> seq<byte>, setups: seq<Setup>, name: seq<byte>, k: nat)
    requires LastAdded(setups, k, name)
    ensures var methods := Configured(text, setups).methods;
            name in methods && methods[name] == Method(setups[k].run)
  {
    hide Configured;
    LastOrBefore(text, setups);
    var n := |setups| - 1;
    if k < n {
      assert forall j | 0 <= j < n :: setups[..n][j] == setups[j];
      MethodIs(text, setups[..n], name, k);
    }
  }

  lemma {:induction false} MethodIsNew(text: int -> seq<byte>, setups: seq<Setup>, name: seq<byte>)
    requires !Added(setups, name)
    ensures var methods := Configured(text, setups).methods;
            && (name in methods <==> name == MulticallName())
            && (name in methods ==> methods[name].SystemMulticall?)
  {
    hide MulticallName;
    if setups != [] {
      var n := |setups| - 1;
      assert forall j | 0 <= j < n :: setups[..n][j] == setups[j];
      MethodIsNew(text, setups[..n], name);
    }
  }

  lemma {:induction false} DefaultIs(text: int -> seq<byte>, setups: seq<Setup>, k: nat)
    requires LastDefault(setups, k)
    ensures Configured(text, setups).fallback == Some(setups[k].answer)
  {
    hide Configured;
    LastOrBefore(text, setups);
    var n := |setups| - 1;
    if k < n {
      assert forall j | 0 <= j < n :: setups[..n][j] == setups[j];
      DefaultIs(text, setups[..n], k);
    }
  }

  lemma {:induction false} NoDefault(text: int -> seq<byte>, setups: seq<Setup>)
    requires forall k | 0 <= k < |setups| :: !setups[k].SetDefault?
    ensures Configured(text, setups).fallback == None
  {
    if setups != [] {
      NoDefault(text, setups[..|setups| - 1]);
    }
  }

  lemma {:induction false} CheckIs(text: int -> seq<byte>, setups: seq<Setup>, k: nat)
    requires LastCheck(setups, k)
    ensures Configured(text, setups).preinvoke == Some(setups[k].check)
  {
    hide Configured;
    LastOrBefore(text, setups);
    var n := |setups| - 1;
    if k < n {
      assert forall j | 0 <= j < n :: setups[..n][j] == setups[j];
      CheckIs(text, setups[..n], k);
    }
  }

  lemma {:induction false} NoCheck(text: int -> seq<byte>, setups: seq<Setup>)
    requires forall k | 0 <= k < |setups| :: !setups[k].SetPreinvoke?
    ensures Configured(text, setups).preinvoke == None
  {
    if setups != [] {
      NoCheck(text, setups[..|setups| - 1]);
    }
  }

  /** The check passes a call: none was ever set, or the last one set has nothing against it. */
  ghost predicate Passes(setups: seq<Setup>, name: seq<byte>, params: Value)
  {
    forall k: nat | LastCheck(setups, k) :: setups[k].check(name, params) == None
  }

  /** Whatever an application has set up: a call goes to the method last added under its name; failing
      that to system.multicall if that is its name; failing that to the last default; and failing that
      there is no such method. Before all that the last check set may refuse it. */
  lemma {:induction false} LastSetUpAnswers(text: int -> seq<byte>, setups: seq<Setup>, name: seq<byte>, params: Value)
    ensures var reg := Configured(text, setups);
            var r := Dispatch(reg, name, params);
            && (forall k: nat | LastCheck(setups, k) && setups[k].check(name, params).Some? ::
                  var (code, why) := setups[k].check(name, params).value; r == Faulted(code, why))
            && (Passes(setups, name, params) ==>
                  && (forall k: nat | LastAdded(setups, k, name) :: r == setups[k].run(params))
                  && (!Added(setups, name) && name == MulticallName() ==> r == MulticallReply(reg, params))
                  && (!Added(setups, name) && name != MulticallName() ==>
                        && (forall k: nat | LastDefault(setups, k) :: r == setups[k].answer(name, params))
                        && ((forall k | 0 <= k < |setups| :: !setups[k].SetDefault?) ==>
                              r == Faulted(NO_SUCH_METHOD_ERROR, text(NO_SUCH_METHOD_ERROR)))))
  {
    hide MulticallName, MulticallReply, Configured, Added;
    forall k: nat | LastCheck(setups, k)
      ensures Configured(text, setups).preinvoke == Some(setups[k].check)
    {
      CheckIs(text, setups, k);
    }
    forall k: nat | LastAdded(setups, k, name)
      ensures name in Configured(text, setups).methods && Configured(text, setups).methods[name] == Method(setups[k].run)
    {
      MethodIs(text, setups, name, k);
    }
    forall k: nat | LastDefault(setups, k)
      ensures Configured(text, setups).fallback == Some(setups[k].answer)
    {
      DefaultIs(text, setups, k);
    }
    if !Added(setups, name) {
      MethodIsNew(text, setups, name);
    }
    if forall k | 0 <= k < |setups| :: !setups[k].SetDefault? {
      NoDefault(text, setups);
    }
    NoCheckOrLast(setups);
    if forall k | 0 <= k < |setups| :: !setups[k].SetPreinvoke? {
      NoCheck(text, setups);
    }
  }

  lemma {:induction false} NoCheckOrLast(setups: seq<Setup>)
    ensures (forall k | 0 <= k < |setups| :: !setups[k].SetPreinvoke?) || exists k: nat :: LastCheck(setups, k)
  {
    if setups != [] {
      var n := |setups| - 1;
      NoCheckOrLast(setups[..n]);
      if setups[n].SetPreinvoke? {
        assert LastCheck(setups, n);
      } else if k: nat :| LastCheck(setups[..n], k) {
        assert forall j | k < j < n :: setups[j] == setups[..n][j];
        assert LastCheck(setups, k);
      } else {
        assert forall k | 0 <= k < n :: setups[k] == setups[..n][k];
      }
    }
  }

  // ---------------------------------------------------------------- as the code runs

  /** xmlrpc_dispatchCall with callPreinvokeMethodIfAny, callNamedMethod and callDefaultMethod */
  method DispatchCall(reg: Registry, name: seq<byte>, params: Value) returns (r: Reply)
    requires Wired(reg)
    ensures r == Dispatch(reg, name, params)
    decreases if name == MulticallName() then 3 else 0
  {
    hide MulticallReply;
    if reg.preinvoke.Some? {
      var refused := reg.preinvoke.value(name, params);
      if refused.Some? {
        return Faulted(refused.value.0, refused.value.1);
      }
    }
    if name in reg.methods {
      match reg.methods[name] {
        case Method(run) => r := run(params);
        case SystemMulticall => r := RunMulticall(reg, params);
      }
    } else if reg.fallback.Some? {
      r := reg.fallback.value(name, params);
    } else {
      r := Faulted(NO_SUCH_METHOD_ERROR, reg.text(NO_SUCH_METHOD_ERROR));
    }
  }

  /** call_one_method: the name is compared before anything is called. */
  method CallOneMethod(reg: Registry, info: Value) returns (r: Reply)
    requires Wired(reg)
    ensures r == match CallOne(reg, info) case Returned(v) => Returned(Array([v])) case fault => fault
    decreases 1
  {
    hide CallInfo, Dispatch;
    match CallInfo(info) {
      case Fault(code) => r := OwnFault(reg, code);
      case Ok((name, params)) =>
        if name == MulticallName() {
          return OwnFault(reg, REQUEST_REFUSED_ERROR);
        }
        r := DispatchCall(reg, name, params);
        if r.Returned? {
          r := Returned(Array([r.value]));
        }
    }
  }

  /** system_multicall */
  method RunMulticall(reg: Registry, params: Value) returns (r: Reply)
    requires Wired(reg)
    ensures r == MulticallReply(reg, params)
    decreases 2
  {
    hide CallOne, CString;
    match CallList(params) {
      case Fault(code) => r := OwnFault(reg, code);
      case Ok(methlist) =>
        var results: seq<Value> := [];
        for i := 0 to |methlist|
          invariant |results| == i
          invariant forall k | 0 <= k < i :: results[k] == Entry(CallOne(reg, methlist[k]))
        {
          var result := CallOneMethod(reg, methlist[i]);
          match result {
            case Returned(v) => results := results + [v];
            case Faulted(code, text) => results := results + [FaultValue(code, CString(text))];
          }
        }
        assert results == seq(|methlist|, k requires 0 <= k < |methlist| => Entry(CallOne(reg, methlist[k])));
        r := Returned(Array(results));
    }
  }

  /** The registry: its fields are set in place. */
  class MethodRegistry {
    var reg: Registry

    /** xmlrpc_registry_new, with system.multicall installed */
    constructor (text: int -> seq<byte>)
      ensures Wired(reg) && reg == NewRegistry(text)
    {
      reg := Registry(map[MulticallName() := SystemMulticall], None, None, text);
    }

    /** xmlrpc_registry_add_method */
    method AddMethod(name: seq<byte>, run: Value -> Reply)
      requires Wired(reg)
      modifies this
      ensures Wired(reg) && reg == Apply(old(reg), Setup.AddMethod(name, run))
    {
      AddingKeepsWired(reg, name, run);
      reg := reg.(methods := reg.methods[name := Method(run)]);
    }

    /** xmlrpc_registry_set_default_method */
    method SetDefaultMethod(run: (seq<byte>, Value) -> Reply)
      requires Wired(reg)
      modifies this
      ensures Wired(reg) && reg == Apply(old(reg), SetDefault(run))
    {
      reg := reg.(fallback := Some(run));
    }

    /** xmlrpc_registry_set_preinvoke_method */
    method SetPreinvokeMethod(check: (seq<byte>, Value) -> Option<(int32, seq<byte>)>)
      requires Wired(reg)
      modifies this
      ensures Wired(reg) && reg == Apply(old(reg), SetPreinvoke(check))
    {
      reg := reg.(preinvoke := Some(check));
    }
  }
}
