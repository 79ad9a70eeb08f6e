/**
 Format strings (xmlrpc_builddecomp.c): building a value from a format and a list of arguments, and
 taking a value apart again with the same format. A cursor moves along the format and another along
 the argument list; here a function takes what is left of each and returns what is left after it.
 */
module Formats {
  import opened Bytes
  import opened Values

  /** What can stand in the argument list: a `char *` is what it points to. */
  datatype Arg =
    | CInt(i: int32)
    | CBool(b: bool)
    | CChars(bytes: seq<byte>)
    | CSize(n: nat)
    | CPointer(address: nat)
    | CValue(v: Value)

  /** Misused: the argument list does not fit the format, or an assertion of the code fails; C says
      nothing about what happens then. */
  datatype Built = Built(value: Value, rest: string, left: seq<Arg>) | Refused(code: int) | Misused

  predicate StartsWith(f: string, c: char) { f != [] && f[0] == c }

  /** The specifiers that take no other specifiers inside. */
  function BuildScalar(c: char, f: string, args: seq<Arg>): (r: Built)
    ensures r.Built? ==> |r.rest| <= |f|
  {
    if c == 'n' then Built(Nil, f, args)
    else if c !in {'i', 'b', 's', '8', '6', 'p', 'V', 'A', 'S'} then (if c in {'d', 'w'} then Misused else Refused(INTERNAL_ERROR))
    else if args == [] then Misused
    else if c == 'i' then if args[0].CInt? then Built(Int(args[0].i), f, args[1..]) else Misused
    else if c == 'b' then if args[0].CBool? then Built(Bool(args[0].b), f, args[1..]) else Misused
    else if c == 's' then
      if !args[0].CChars? then Misused
      else if StartsWith(f, '#') then
        if |args| > 1 && args[1].CSize? && args[1].n <= |args[0].bytes|
        then Built(Str(args[0].bytes[..args[1].n]), f[1..], args[2..]) else Misused
      else Built(Str(CString(args[0].bytes)), f, args[1..])
    else if c == '8' then if args[0].CChars? then Built(DateTime(CString(args[0].bytes)), f, args[1..]) else Misused
    else if c == '6' then
      if args[0].CChars? && |args| > 1 && args[1].CSize? && args[1].n <= |args[0].bytes|
      then Built(Binary(args[0].bytes[..args[1].n]), f, args[2..]) else Misused
    else if c == 'p' then if args[0].CPointer? then Built(CPtr(args[0].address), f, args[1..]) else Misused
    else if !args[0].CValue? then Misused
    else if c == 'A' && !args[0].v.Array? then Refused(INTERNAL_ERROR)
    else if c == 'S' && !args[0].v.Struct? then Refused(INTERNAL_ERROR)
    else Built(args[0].v, f, args[1..])
  }

  /** getValue */
  function BuildValue(f: string, args: seq<Arg>): (r: Built)
    ensures r.Built? ==> |r.rest| < |f|
    decreases |f|, 0
  {
    if f == [] then Refused(INTERNAL_ERROR)
    else if f[0] == '(' then
      match BuildArray(f[1..], args, [])
      case Built(v, rest, left) => Built(v, rest[1..], left)
      case bad => bad
    else if f[0] == '{' then
      match BuildStruct(f[1..], args, [])
      case Built(v, rest, left) => Built(v, rest[1..], left)
      case bad => bad
    else BuildScalar(f[0], f[1..], args)
  }

  /** getArray, with the items so far: it stops at the closing parenthesis. */
  function BuildArray(f: string, args: seq<Arg>, items: seq<Value>): (r: Built)
    ensures r.Built? ==> |r.rest| <= |f| && StartsWith(r.rest, ')')
    decreases |f|, 1
  {
    if f == [] then Refused(INTERNAL_ERROR)
    else if f[0] == ')' then Built(Array(items), f, args)
    else match BuildValue(f, args)
      case Built(v, rest, left) => BuildArray(rest, left, items + [v])
      case bad => bad
  }

  /** getStruct, with the members so far: it stops at the closing brace. */
  function BuildStruct(f: string, args: seq<Arg>, ms: seq<Member>): (r: Built)
    ensures r.Built? ==> |r.rest| <= |f| && StartsWith(r.rest, '}')
    decreases |f|, 1
  {
    if StartsWith(f, '}') then Built(Struct(ms), f, args)
    else match BuildValue(f, args)
      case Refused(code) => Refused(code)
      case Misused => Misused
      case Built(key, rest, left) =>
        if !StartsWith(rest, ':') then Refused(INTERNAL_ERROR)
        else match BuildValue(rest[1..], left)
          case Refused(code) => Refused(code)
          case Misused => Misused
          case Built(v, rest, left) =>
            if !StartsWith(rest, ',') && !StartsWith(rest, '}') then Refused(INTERNAL_ERROR)
            else if !key.Str? then Refused(TYPE_ERROR)
            else BuildStruct(if rest[0] == ',' then rest[1..] else rest, left, SetMember(ms, key.s, v))
  }

  // ---------------------------------------------------------------- taking apart

  /** An argument of the decomposing call: a key given, or a place for a result. */
  datatype Slot = Given(arg: Arg) | Wanted

  /** `filled` lists the arguments passed over, each Wanted one replaced by the result stored there. */
  datatype Taken = Taken(rest: string, left: seq<Slot>, filled: seq<Arg>) | Failed(code: int) | Broken

  function Store(f: string, slots: seq<Slot>, results: seq<Arg>): Taken
  {
    if |results| <= |slots| && forall k | 0 <= k < |results| :: slots[k].Wanted?
    then Taken(f, slots[|results|..], results) else Broken
  }

  function TakeScalar(v: Value, c: char, f: string, slots: seq<Slot>): (r: Taken)
    ensures r.Taken? ==> |r.rest| <= |f|
  {
    if c == 'i' then if v.Int? then Store(f, slots, [CInt(v.i)]) else Failed(TYPE_ERROR)
    else if c == 'b' then if v.Bool? then Store(f, slots, [CBool(v.b)]) else Failed(TYPE_ERROR)
    else if c == '8' then if v.DateTime? then Store(f, slots, [CChars(CString(v.text))]) else Failed(TYPE_ERROR)
    else if c == 's' then
      if !v.Str? then Failed(TYPE_ERROR)
      else if StartsWith(f, '#') then Store(f[1..], slots, [CChars(v.s), CSize(|v.s|)])
      else if 0 in v.s then Failed(TYPE_ERROR)
      else Store(f, slots, [CChars(v.s)])
    else if c == '6' then if v.Binary? then Store(f, slots, [CChars(v.data), CSize(|v.data|)]) else Failed(TYPE_ERROR)
    else if c == 'n' then if v.Nil? then Store(f, slots, []) else Failed(TYPE_ERROR)
    else if c == 'p' then if v.CPtr? then Store(f, slots, [CPointer(v.address)]) else Failed(TYPE_ERROR)
    else if c == 'V' then Store(f, slots, [CValue(v)])
    else if c == 'A' then if v.Array? then Store(f, slots, [CValue(v)]) else Failed(TYPE_ERROR)
    else if c == 'S' then if v.Struct? then Store(f, slots, [CValue(v)]) else Failed(TYPE_ERROR)
    else if c in {'d', 'w'} then Broken
    else Failed(INTERNAL_ERROR)
  }

  /** decomposeValue */
  function TakeValue(v: Value, f: string, slots: seq<Slot>): (r: Taken)
    ensures r.Taken? ==> |r.rest| < |f|
    decreases |f|, 0
  {
    if f == [] then Failed(INTERNAL_ERROR)
    else if f[0] == '(' then
      if !v.Array? then Failed(TYPE_ERROR)
      else match TakeArray(v.items, f[1..], slots)
        case Taken(rest, left, filled) => Taken(rest[1..], left, filled)
        case bad => bad
    else if f[0] == '{' then
      if !v.Struct? then Failed(TYPE_ERROR)
      else match TakeStruct(v.members, f[1..], slots)
        case Taken(rest, left, filled) => if rest == [] then Broken else Taken(rest[1..], left, filled)
        case bad => bad
    else TakeScalar(v, f[0], f[1..], slots)
  }

  function Filled(front: seq<Arg>, r: Taken): (s: Taken)
    ensures s.Taken? == r.Taken? && (r.Taken? ==> s.rest == r.rest)
  {
    match r
    case Taken(rest, left, filled) => Taken(rest, left, front + filled)
    case bad => bad
  }

  /** parsearray, with the items that remain. */
  function TakeArray(items: seq<Value>, f: string, slots: seq<Slot>): (r: Taken)
    ensures r.Taken? ==> |r.rest| <= |f| && StartsWith(r.rest, ')')
    decreases |f|, 1
  {
    if items == [] || StartsWith(f, '*') then
      var rest := if StartsWith(f, '*') then f[1..] else f;
      if StartsWith(rest, ')') then Taken(rest, slots, []) else Failed(INDEX_ERROR)
    else if f == [] then Broken
    else if f[0] == ')' then Failed(INDEX_ERROR)
    else match TakeValue(items[0], f, slots)
      case Taken(rest, left, filled) => Filled(filled, TakeArray(items[1..], rest, left))
      case bad => bad
  }

  /** The keys at the head of the argument list, as the building code reads them. */
  function Keys(slots: seq<Slot>): (args: seq<Arg>)
    ensures |args| <= |slots|
    ensures forall k | 0 <= k < |args| :: slots[k] == Given(args[k])
  {
    if slots == [] || slots[0].Wanted? then [] else [slots[0].arg] + Keys(slots[1..])
  }

  /** parsestruct */
  function TakeStruct(ms: seq<Member>, f: string, slots: seq<Slot>): (r: Taken)
    ensures r.Taken? ==> |r.rest| <= |f| && (r.rest == [] || r.rest[0] == '}')
    decreases |f|, 1
  {
    if StartsWith(f, '*') then
      if f[1..] == [] || f[1] == '}' then Taken(f[1..], slots, []) else Failed(INTERNAL_ERROR)
    else if f == [] || f[0] == '}' then Failed(INTERNAL_ERROR)
    else
      var keys := Keys(slots);
      match BuildValue(f, keys)
      case Refused(code) => Failed(code)
      case Misused => Broken
      case Built(key, rest, left) =>
        if |left| > |keys| || !StartsWith(rest, ':') then Broken
        else if !key.Str? then Failed(TYPE_ERROR)
        else
          var used := |keys| - |left|;
          var i := KeyIndex(ms, key.s);
          if i == |ms| then Failed(INDEX_ERROR)
          else match TakeValue(ms[i].value, rest[1..], slots[used..])
            case Failed(code) => Failed(code)
            case Broken => Broken
            case Taken(rest, left, filled) =>
              if !StartsWith(rest, ',') && !StartsWith(rest, '}') then Broken
              else Filled(keys[..used] + filled, TakeStruct(ms, if rest[0] == ',' then rest[1..] else rest, left))
  }

  // ---------------------------------------------------------------- formats with their arguments

  /** A specifier together with the arguments that belong to it. `trailing` says that a comma follows
      the last member. */
  datatype Item =
    | IInt(i: int32)
    | IBool(b: bool)
    | IStr(bytes: seq<byte>)
    | IStrN(bytes: seq<byte>, n: nat)
    | IDate(bytes: seq<byte>)
    | IBase64(bytes: seq<byte>, n: nat)
    | INil
    | IPointer(address: nat)
    | IValue(v: Value)
    | IArrayValue(v: Value)
    | IStructValue(v: Value)
    | IArray(items: seq<Item>)
    | IStruct(members: seq<ItemMember>, trailing: bool)

  datatype ItemMember = ItemMember(key: Item, value: Item)

  /** The format of an item, for building, or `closed` by an asterisk in each struct for taking apart. */
  function FormatOf(item: Item, closed: bool): (f: string)
    ensures f != []
    decreases item, 1
  {
    match item
    case IInt(_) => "i"
    case IBool(_) => "b"
    case IStr(_) => "s"
    case IStrN(_, _) => "s#"
    case IDate(_) => "8"
    case IBase64(_, _) => "6"
    case INil => "n"
    case IPointer(_) => "p"
    case IValue(_) => "V"
    case IArrayValue(_) => "A"
    case IStructValue(_) => "S"
    case IArray(items) => "(" + FormatOfItems(items, closed) + ")"
    case IStruct(members, trailing) => "{" + FormatOfMembers(members, trailing, closed) + "}"
  }

  function FormatOfItems(items: seq<Item>, closed: bool): string
    decreases items, 0
  {
    if items == [] then "" else FormatOf(items[0], closed) + FormatOfItems(items[1..], closed)
  }

  function FormatOfMembers(members: seq<ItemMember>, trailing: bool, closed: bool): string
    decreases members, 0
  {
    if members == [] then if closed then "*" else ""
    else FormatOfMember(members[0], closed)
         + (if |members| > 1 || trailing || closed then "," else "")
         + FormatOfMembers(members[1..], trailing, closed)
  }

  function FormatOfMember(m: ItemMember, closed: bool): string
    decreases m, 2
  {
    FormatOf(m.key, false) + ":" + FormatOf(m.value, closed)
  }

  /** The arguments that belong to an item, in order. */
  function ArgsOf(item: Item): seq<Arg>
    decreases item, 1
  {
    match item
    case IInt(i) => [CInt(i)]
    case IBool(b) => [CBool(b)]
    case IStr(bytes) => [CChars(bytes)]
    case IStrN(bytes, n) => [CChars(bytes), CSize(n)]
    case IDate(bytes) => [CChars(bytes)]
    case IBase64(bytes, n) => [CChars(bytes), CSize(n)]
    case INil => []
    case IPointer(address) => [CPointer(address)]
    case IValue(v) => [CValue(v)]
    case IArrayValue(v) => [CValue(v)]
    case IStructValue(v) => [CValue(v)]
    case IArray(items) => ArgsOfItems(items)
    case IStruct(members, _) => ArgsOfMembers(members)
  }

  function ArgsOfItems(items: seq<Item>): seq<Arg>
    decreases items, 0
  {
    if items == [] then [] else ArgsOf(items[0]) + ArgsOfItems(items[1..])
  }

  function ArgsOfMembers(members: seq<ItemMember>): seq<Arg>
    decreases members, 0
  {
    if members == [] then [] else ArgsOfMember(members[0]) + ArgsOfMembers(members[1..])
  }

  function ArgsOfMember(m: ItemMember): seq<Arg>
    decreases m, 2
  {
    ArgsOf(m.key) + ArgsOf(m.value)
  }

  /** The argument list for taking an item apart: keys are given, everything else is wanted. */
  function SlotsOf(item: Item): seq<Slot>
    decreases item, 1
  {
    match item
    case IArray(items) => SlotsOfItems(items)
    case IStruct(members, _) => SlotsOfMembers(members)
    case _ => seq(|ArgsOf(item)|, k => Wanted)
  }

  function SlotsOfItems(items: seq<Item>): seq<Slot>
    decreases items, 0
  {
    if items == [] then [] else SlotsOf(items[0]) + SlotsOfItems(items[1..])
  }

  function AllGiven(args: seq<Arg>): seq<Slot>
  {
    seq(|args|, k requires 0 <= k < |args| => Given(args[k]))
  }

  function SlotsOfMembers(members: seq<ItemMember>): seq<Slot>
    decreases members, 0
  {
    if members == [] then []
    else SlotsOfMember(members[0]) + SlotsOfMembers(members[1..])
  }

  function SlotsOfMember(m: ItemMember): seq<Slot>
    decreases m, 2
  {
    AllGiven(ArgsOf(m.key)) + SlotsOf(m.value)
  }

  /** The value an item builds. */
  function ValueOf(item: Item): Value
    requires Sized(item)
    decreases item, 1
  {
    match item
    case IInt(i) => Int(i)
    case IBool(b) => Bool(b)
    case IStr(bytes) => Str(CString(bytes))
    case IStrN(bytes, n) => Str(bytes[..n])
    case IDate(bytes) => DateTime(CString(bytes))
    case IBase64(bytes, n) => Binary(bytes[..n])
    case INil => Nil
    case IPointer(address) => CPtr(address)
    case IValue(v) => v
    case IArrayValue(v) => v
    case IStructValue(v) => v
    case IArray(items) => Array(ValuesOf(items))
    case IStruct(members, _) => Struct(MembersOf(members, []))
  }

  function ValuesOf(items: seq<Item>): (vs: seq<Value>)
    requires forall k | 0 <= k < |items| :: Sized(items[k])
    ensures |vs| == |items|
    decreases items, 0
  {
    if items == [] then [] else [ValueOf(items[0])] + ValuesOf(items[1..])
  }

  function MembersOf(members: seq<ItemMember>, ms: seq<Member>): seq<Member>
    requires forall k | 0 <= k < |members| :: SizedMember(members[k])
    decreases members, 0
  {
    if members == [] then ms
    else
      var m := MemberOf(members[0]);
      MembersOf(members[1..], SetMember(ms, m.key, m.value))
  }

  function MemberOf(m: ItemMember): Member
    requires SizedMember(m)
    decreases m, 2
  {
    Member(KeyOf(m.key), ValueOf(m.value))
  }

  function KeyOf(key: Item): seq<byte>
    requires StringKey(key) && Sized(key)
  {
    match key
    case IStr(bytes) => CString(bytes)
    case IStrN(bytes, n) => bytes[..n]
    case IValue(v) => v.s
  }

  /** Lengths lie within what they measure, values passed for 'A' and 'S' are arrays and structs, and
      keys are strings: what building asks of the arguments. */
  predicate Sized(item: Item)
    decreases item
  {
    match item
    case IStrN(bytes, n) => n <= |bytes|
    case IBase64(bytes, n) => n <= |bytes|
    case IArrayValue(v) => v.Array?
    case IStructValue(v) => v.Struct?
    case IArray(items) => forall k | 0 <= k < |items| :: Sized(items[k])
    case IStruct(members, trailing) =>
      (forall k | 0 <= k < |members| :: SizedMember(members[k])) && (trailing ==> members != [])
    case _ => true
  }

  predicate SizedMember(m: ItemMember)
    decreases m
  {
    Sized(m.key) && Sized(m.value) && StringKey(m.key)
  }

  /** The specifiers that can build a string. */
  predicate StringKey(item: Item)
  {
    item.IStr? || item.IStrN? || (item.IValue? && item.v.Str?)
  }

  // ---------------------------------------------------------------- building follows the format

  /** No specifier begins with a character that means something inside a group. */
  lemma {:induction false} HeadOf(item: Item, closed: bool)
    ensures FormatOf(item, closed)[0] in {'i', 'b', 's', '8', '6', 'n', 'p', 'V', 'A', 'S', '(', '{'}
  {
    hide FormatOfItems, FormatOfMembers;
  }

  lemma {:induction false} BuildsCounted(item: Item, tail: string, more: seq<Arg>)
    requires Sized(item) && (item.IStrN? || item.IBase64?)
    ensures BuildValue(FormatOf(item, false) + tail, ArgsOf(item) + more) == Built(ValueOf(item), tail, more)
  {
    var f, args := FormatOf(item, false) + tail, ArgsOf(item) + more;
    assert args[0] == CChars(item.bytes) && args[1] == CSize(item.n) && args[2..] == more;
    if item.IStrN? {
      assert f[0] == 's' && f[1..] == "#" + tail && f[1..][1..] == tail;
    } else {
      assert f[0] == '6' && f[1..] == tail;
    }
  }

  lemma {:induction false} BuildsScalar(item: Item, tail: string, more: seq<Arg>)
    requires Sized(item) && !item.IArray? && !item.IStruct? && !StartsWith(tail, '#')
    ensures BuildValue(FormatOf(item, false) + tail, ArgsOf(item) + more) == Built(ValueOf(item), tail, more)
  {
    hide CString;
    if item.IStrN? || item.IBase64? {
      BuildsCounted(item, tail, more);
    } else {
      var f, args := FormatOf(item, false) + tail, ArgsOf(item) + more;
      assert f[0] == FormatOf(item, false)[0] && f[1..] == tail;
      if item.INil? {
        assert args == more;
      } else {
        assert args[0] == ArgsOf(item)[0] && args[1..] == more;
      }
    }
  }

  lemma {:induction false} Bracketed(open: char, inner: string, close: char, tail: string)
    ensures var f, rest := [open] + inner + [close] + tail, [close] + tail;
            f[0] == open && f[1..] == inner + rest && rest[0] == close && rest[1..] == tail
  {
  }

  lemma {:induction false} BuildsGroup(f: string, args: seq<Arg>)
    requires StartsWith(f, '(') || StartsWith(f, '{')
    ensures BuildValue(f, args)
         == match (if f[0] == '(' then BuildArray(f[1..], args, []) else BuildStruct(f[1..], args, []))
            case Built(v, rest, left) => Built(v, rest[1..], left)
            case bad => bad
  {
    hide BuildArray, BuildStruct;
  }

  lemma {:induction false} Builds(item: Item, tail: string, more: seq<Arg>)
    requires Sized(item) && !StartsWith(tail, '#')
    ensures BuildValue(FormatOf(item, false) + tail, ArgsOf(item) + more) == Built(ValueOf(item), tail, more)
    decreases item, 1
  {
    hide BuildArray, BuildStruct, FormatOfItems, FormatOfMembers, BuildValue, ArgsOfItems, ArgsOfMembers, ValuesOf, MembersOf;
    if item.IArray? {
      var inner := FormatOfItems(item.items, false);
      BuildsItems(item.items, [')'] + tail, more, []);
      Bracketed('(', inner, ')', tail);
      BuildsGroup(FormatOf(item, false) + tail, ArgsOf(item) + more);
      assert [] + ValuesOf(item.items) == ValuesOf(item.items);
    } else if item.IStruct? {
      var inner := FormatOfMembers(item.members, item.trailing, false);
      BuildsMembers(item.members, item.trailing, ['}'] + tail, more, []);
      Bracketed('{', inner, '}', tail);
      BuildsGroup(FormatOf(item, false) + tail, ArgsOf(item) + more);
    } else {
      BuildsScalar(item, tail, more);
    }
  }

  lemma {:induction false} BuildsItems(items: seq<Item>, tail: string, more: seq<Arg>, vs: seq<Value>)
    requires (forall k | 0 <= k < |items| :: Sized(items[k])) && StartsWith(tail, ')')
    ensures BuildArray(FormatOfItems(items, false) + tail, ArgsOfItems(items) + more, vs)
         == Built(Array(vs + ValuesOf(items)), tail, more)
    decreases items, 0
  {
    hide FormatOf, ArgsOf, ValueOf, BuildValue;
    if items == [] {
      assert "" + tail == tail && [] + more == more && vs + [] == vs;
    } else {
      var head, rest := FormatOf(items[0], false), FormatOfItems(items[1..], false);
      HeadOf(items[0], false);
      HeadOfItems(items[1..], tail);
      assert head + rest + tail == head + (rest + tail);
      assert ArgsOf(items[0]) + ArgsOfItems(items[1..]) + more == ArgsOf(items[0]) + (ArgsOfItems(items[1..]) + more);
      Builds(items[0], rest + tail, ArgsOfItems(items[1..]) + more);
      BuildsItems(items[1..], tail, more, vs + [ValueOf(items[0])]);
      assert vs + [ValueOf(items[0])] + ValuesOf(items[1..]) == vs + ([ValueOf(items[0])] + ValuesOf(items[1..]));
    }
  }

  lemma {:induction false} HeadOfItems(items: seq<Item>, tail: string)
    requires !StartsWith(tail, '#')
    ensures !StartsWith(FormatOfItems(items, false) + tail, '#')
  {
    hide FormatOf;
    if items == [] {
      assert "" + tail == tail;
    } else {
      HeadOf(items[0], false);
    }
  }

  lemma {:induction false} StringKeyOf(key: Item)
    requires Sized(key) && StringKey(key)
    ensures ValueOf(key) == Str(KeyOf(key))
  {
  }

  lemma {:induction false} BuildsMembers(members: seq<ItemMember>, trailing: bool, tail: string, more: seq<Arg>, ms: seq<Member>)
    requires (forall k | 0 <= k < |members| :: SizedMember(members[k])) && StartsWith(tail, '}')
    ensures BuildStruct(FormatOfMembers(members, trailing, false) + tail, ArgsOfMembers(members) + more, ms)
         == Built(Struct(MembersOf(members, ms)), tail, more)
    decreases members, 0
  {
    hide FormatOf, ArgsOf, ValueOf, BuildValue, StringKey, SetMember, KeyOf;
    if members == [] {
      assert "" + tail == tail && [] + more == more;
    } else {
      var m := members[0];
      var comma := if |members| > 1 || trailing then "," else "";
      var rest := FormatOfMembers(members[1..], trailing, false) + tail;
      var after := ArgsOfMembers(members[1..]) + more;
      assert FormatOfMembers(members, trailing, false) + tail
          == FormatOf(m.key, false) + ":" + FormatOf(m.value, false) + (comma + rest);
      assert ArgsOfMembers(members) + more == ArgsOf(m.key) + ArgsOf(m.value) + after;
      NoComma(members, trailing, tail);
      BuildsMember(m, comma + rest, after, ms);
      var ms' := SetMember(ms, MemberOf(m).key, MemberOf(m).value);
      assert comma == "," ==> (comma + rest)[1..] == rest;
      BuildsMembers(members[1..], trailing, tail, more, ms');
    }
  }

  lemma {:induction false} NoComma(members: seq<ItemMember>, trailing: bool, tail: string)
    requires members != [] && StartsWith(tail, '}')
    ensures |members| == 1 ==> FormatOfMembers(members[1..], trailing, false) + tail == tail
  {
  }

  /** One turn of the loop of getStruct. */
  lemma {:induction false} BuildsMember(m: ItemMember, rest: string, more: seq<Arg>, ms: seq<Member>)
    requires SizedMember(m) && (StartsWith(rest, ',') || StartsWith(rest, '}'))
    ensures BuildStruct(FormatOf(m.key, false) + ":" + FormatOf(m.value, false) + rest, ArgsOf(m.key) + ArgsOf(m.value) + more, ms)
         == BuildStruct(if rest[0] == ',' then rest[1..] else rest, more, SetMember(ms, MemberOf(m).key, MemberOf(m).value))
    decreases m, 2
  {
    hide FormatOf, ArgsOf, ValueOf, BuildValue, StringKey, SetMember, KeyOf;
    var k, v := FormatOf(m.key, false), FormatOf(m.value, false);
    HeadOf(m.key, false);
    assert k + ":" + v + rest == k + (":" + v + rest);
    assert (":" + v + rest)[1..] == v + rest;
    assert ArgsOf(m.key) + ArgsOf(m.value) + more == ArgsOf(m.key) + (ArgsOf(m.value) + more);
    Builds(m.key, ":" + v + rest, ArgsOf(m.value) + more);
    Builds(m.value, rest, more);
    StringKeyOf(m.key);
  }

  // ---------------------------------------------------------------- taking apart follows the format

  function MemberList(members: seq<ItemMember>): (ms: seq<Member>)
    requires forall k | 0 <= k < |members| :: SizedMember(members[k])
    ensures |ms| == |members|
  {
    seq(|members|, k requires 0 <= k < |members| => MemberOf(members[k]))
  }

  /** Texts passed without a length have no NUL, lengths are whole lengths, and no struct names one key
      twice. */
  predicate Plain(item: Item)
    requires Sized(item)
    decreases item
  {
    match item
    case IStr(bytes) => 0 !in bytes
    case IStrN(bytes, n) => n == |bytes|
    case IDate(bytes) => 0 !in bytes
    case IBase64(bytes, n) => n == |bytes|
    case IArray(items) => forall k | 0 <= k < |items| :: Plain(items[k])
    case IStruct(members, _) =>
      (forall k | 0 <= k < |members| :: PlainMember(members[k])) && DistinctKeys(MemberList(members))
    case _ => true
  }

  predicate PlainMember(m: ItemMember)
    requires SizedMember(m)
    decreases m
  {
    Plain(m.value)
  }

  lemma {:induction false} MembersAppend(members: seq<ItemMember>, ms: seq<Member>)
    requires forall k | 0 <= k < |members| :: SizedMember(members[k])
    requires DistinctKeys(ms + MemberList(members))
    ensures MembersOf(members, ms) == ms + MemberList(members)
    decreases |members|
  {
    hide KeyOf, ValueOf, KeyIndex;
    if members == [] {
      assert ms + [] == ms;
    } else {
      var m := MemberOf(members[0]);
      var all := ms + MemberList(members);
      assert MemberList(members) == [m] + MemberList(members[1..]);
      assert all == ms + [m] + MemberList(members[1..]);
      forall k | 0 <= k < |ms|
        ensures ms[k].key != m.key
      {
        assert all[k] == ms[k] && all[|ms|] == m;
      }
      assert SetMember(ms, m.key, m.value) == ms + [m];
      MembersAppend(members[1..], ms + [m]);
    }
  }

  lemma {:induction false} StoreAll(f: string, n: nat, more: seq<Slot>, results: seq<Arg>)
    requires |results| == n
    ensures Store(f, seq(n, k => Wanted) + more, results) == Taken(f, more, results)
  {
    assert (seq(n, k => Wanted) + more)[n..] == more;
  }

  lemma {:induction false} TakesScalar(item: Item, tail: string, more: seq<Slot>)
    requires Sized(item) && Plain(item) && !item.IArray? && !item.IStruct? && !StartsWith(tail, '#')
    ensures TakeValue(ValueOf(item), FormatOf(item, true) + tail, SlotsOf(item) + more) == Taken(tail, more, ArgsOf(item))
  {
    hide CString, Store, TakeArray, TakeStruct;
    var f := FormatOf(item, true) + tail;
    assert f[0] == FormatOf(item, true)[0];
    StoreAll(tail, |ArgsOf(item)|, more, ArgsOf(item));
    if item.IStrN? {
      assert f[1..] == "#" + tail && f[1..][1..] == tail && item.bytes[..item.n] == item.bytes;
    } else {
      assert f[1..] == tail;
      if item.IBase64? {
        assert item.bytes[..item.n] == item.bytes;
      }
    }
  }

  lemma {:induction false} TakesGroup(v: Value, f: string, slots: seq<Slot>)
    requires (StartsWith(f, '(') && v.Array?) || (StartsWith(f, '{') && v.Struct?)
    ensures TakeValue(v, f, slots)
         == match (if f[0] == '(' then TakeArray(v.items, f[1..], slots) else TakeStruct(v.members, f[1..], slots))
            case Taken(rest, left, filled) => if rest == [] then Broken else Taken(rest[1..], left, filled)
            case bad => bad
  {
    hide TakeArray, TakeStruct;
  }

  lemma {:induction false} Takes(item: Item, tail: string, more: seq<Slot>)
    requires Sized(item) && Plain(item) && !StartsWith(tail, '#')
    ensures TakeValue(ValueOf(item), FormatOf(item, true) + tail, SlotsOf(item) + more) == Taken(tail, more, ArgsOf(item))
    decreases item, 2
  {
    hide TakeValue, FormatOf, ValueOf, ArgsOf, SlotsOf;
    if item.IArray? {
      TakesArray(item, tail, more);
    } else if item.IStruct? {
      TakesStruct(item, tail, more);
    } else {
      TakesScalar(item, tail, more);
    }
  }

  lemma {:induction false} TakesArray(item: Item, tail: string, more: seq<Slot>)
    requires Sized(item) && Plain(item) && item.IArray?
    ensures TakeValue(ValueOf(item), FormatOf(item, true) + tail, SlotsOf(item) + more) == Taken(tail, more, ArgsOf(item))
    decreases item, 1
  {
    hide TakeArray, TakeStruct, TakeValue, FormatOfItems, FormatOfMembers, ArgsOfItems, ArgsOfMembers, ValuesOf, MembersOf,
         SlotsOfItems, SlotsOfMembers;
    TakesItems(item.items, [')'] + tail, more);
    Bracketed('(', FormatOfItems(item.items, true), ')', tail);
    TakesGroup(ValueOf(item), FormatOf(item, true) + tail, SlotsOf(item) + more);
  }

  lemma {:induction false} PlainStruct(item: Item)
    requires Sized(item) && Plain(item) && item.IStruct?
    ensures forall k | 0 <= k < |item.members| :: SizedMember(item.members[k]) && PlainMember(item.members[k])
    ensures DistinctKeys(MemberList(item.members)) && ValueOf(item) == Struct(MemberList(item.members))
  {
    hide PlainMember, SizedMember, MemberOf, MembersOf;
    var ms := MemberList(item.members);
    assert [] + ms == ms;
    MembersAppend(item.members, []);
  }

  lemma {:induction false} TakesStruct(item: Item, tail: string, more: seq<Slot>)
    requires Sized(item) && Plain(item) && item.IStruct?
    ensures TakeValue(ValueOf(item), FormatOf(item, true) + tail, SlotsOf(item) + more) == Taken(tail, more, ArgsOf(item))
    decreases item, 1
  {
    hide TakeArray, TakeStruct, TakeValue, FormatOfItems, FormatOfMembers, ArgsOfItems, ArgsOfMembers, ValueOf,
         SlotsOfItems, SlotsOfMembers, Sized, Plain, SizedMember, PlainMember, DistinctKeys, MemberOf;
    PlainStruct(item);
    TakesMembers(item.members, item.trailing, ['}'] + tail, more, MemberList(item.members), 0);
    Bracketed('{', FormatOfMembers(item.members, item.trailing, true), '}', tail);
    TakesGroup(ValueOf(item), FormatOf(item, true) + tail, SlotsOf(item) + more);
  }

  /** The items a format names are taken, whatever other items follow them. */
  lemma {:induction false} TakesPrefix(items: seq<Item>, extra: seq<Value>, tail: string, more: seq<Slot>)
    requires (forall k | 0 <= k < |items| :: Sized(items[k]) && Plain(items[k])) && !StartsWith(tail, '#')
    ensures TakeArray(ValuesOf(items) + extra, FormatOfItems(items, true) + tail, SlotsOfItems(items) + more)
         == Filled(ArgsOfItems(items), TakeArray(extra, tail, more))
    decreases items, 0
  {
    hide FormatOf, ArgsOf, ValueOf, SlotsOf, TakeValue, TakeArray, Filled;
    if items == [] {
      assert "" + tail == tail && [] + more == more && [] + extra == extra;
      FillNothing(TakeArray(extra, tail, more));
    } else {
      var head, rest := FormatOf(items[0], true), FormatOfItems(items[1..], true);
      HeadOf(items[0], true);
      HeadOfClosed(items[1..], tail);
      assert head + rest + tail == head + (rest + tail);
      assert SlotsOf(items[0]) + SlotsOfItems(items[1..]) + more == SlotsOf(items[0]) + (SlotsOfItems(items[1..]) + more);
      Takes(items[0], rest + tail, SlotsOfItems(items[1..]) + more);
      TakesPrefix(items[1..], extra, tail, more);
      var vs := ValuesOf(items) + extra;
      TakesOne(vs, head + (rest + tail), SlotsOf(items[0]) + (SlotsOfItems(items[1..]) + more));
      assert vs[0] == ValueOf(items[0]) && vs[1..] == ValuesOf(items[1..]) + extra;
      FillTwice(ArgsOf(items[0]), ArgsOfItems(items[1..]), TakeArray(extra, tail, more));
    }
  }

  /** One turn of the loop of parsearray. */
  lemma {:induction false} TakesOne(items: seq<Value>, f: string, slots: seq<Slot>)
    requires items != [] && f != [] && f[0] !in {'*', ')'}
    ensures TakeArray(items, f, slots)
         == match TakeValue(items[0], f, slots)
            case Taken(rest, left, filled) => Filled(filled, TakeArray(items[1..], rest, left))
            case bad => bad
  {
    hide TakeValue, Filled;
  }

  lemma {:induction false} FillNothing(r: Taken)
    ensures Filled([], r) == r
  {
    if r.Taken? {
      assert [] + r.filled == r.filled;
    }
  }

  lemma {:induction false} FillTwice(a: seq<Arg>, b: seq<Arg>, r: Taken)
    ensures Filled(a, Filled(b, r)) == Filled(a + b, r)
  {
    if r.Taken? {
      assert a + (b + r.filled) == a + b + r.filled;
    }
  }

  lemma {:induction false} TakesItems(items: seq<Item>, tail: string, more: seq<Slot>)
    requires (forall k | 0 <= k < |items| :: Sized(items[k]) && Plain(items[k])) && StartsWith(tail, ')')
    ensures TakeArray(ValuesOf(items), FormatOfItems(items, true) + tail, SlotsOfItems(items) + more)
         == Taken(tail, more, ArgsOfItems(items))
    decreases items, 1
  {
    hide FormatOfItems, ArgsOfItems, ValuesOf, SlotsOfItems, TakeValue;
    TakesPrefix(items, [], tail, more);
    assert ValuesOf(items) + [] == ValuesOf(items) && ArgsOfItems(items) + [] == ArgsOfItems(items);
  }

  lemma {:induction false} HeadOfClosed(items: seq<Item>, tail: string)
    requires !StartsWith(tail, '#')
    ensures !StartsWith(FormatOfItems(items, true) + tail, '#')
  {
    hide FormatOf;
    if items == [] {
      assert "" + tail == tail;
    } else {
      HeadOf(items[0], true);
    }
  }

  lemma {:induction false} KeysFirst(arg: Arg, slots: seq<Slot>)
    ensures Keys([Given(arg)] + slots) == [arg] + Keys(slots)
  {
    assert ([Given(arg)] + slots)[1..] == slots;
  }

  lemma {:induction false} KeysAppend(args: seq<Arg>, slots: seq<Slot>)
    ensures Keys(AllGiven(args) + slots) == args + Keys(slots)
  {
    hide Keys;
    if args == [] {
      assert AllGiven(args) + slots == slots && args + Keys(slots) == Keys(slots);
    } else {
      var rest := AllGiven(args[1..]);
      assert AllGiven(args) + slots == [Given(args[0])] + (rest + slots);
      KeysAppend(args[1..], slots);
      KeysFirst(args[0], rest + slots);
      assert args + Keys(slots) == [args[0]] + (args[1..] + Keys(slots));
    }
  }

  lemma {:induction false} DistinctIndex(ms: seq<Member>, i: nat)
    requires DistinctKeys(ms) && i < |ms|
    ensures KeyIndex(ms, ms[i].key) == i
  {
    hide KeyIndex;
    KeyIndexIs(ms, ms[i].key, i);
  }

  /** One turn of the loop of parsestruct. */
  lemma {:induction false} TakesMember(m: ItemMember, rest: string, more: seq<Slot>, ms: seq<Member>, i: nat)
    requires SizedMember(m) && PlainMember(m) && StartsWith(rest, ',')
    requires DistinctKeys(ms) && i < |ms| && ms[i] == MemberOf(m)
    ensures TakeStruct(ms, FormatOfMember(m, true) + rest, SlotsOfMember(m) + more)
         == Filled(ArgsOfMember(m), TakeStruct(ms, rest[1..], more))
    decreases m, 2
  {
    hide FormatOf, ArgsOf, ValueOf, SlotsOf, TakeValue, BuildValue, StringKey, KeyOf, KeyIndex, Keys;
    var k, v := FormatOf(m.key, false), FormatOf(m.value, true);
    var keyArgs, after := ArgsOf(m.key), SlotsOf(m.value) + more;
    HeadOf(m.key, false);
    var f, slots := FormatOfMember(m, true) + rest, SlotsOfMember(m) + more;
    assert f == k + (":" + (v + rest));
    assert (":" + (v + rest))[1..] == v + rest;
    assert slots == AllGiven(keyArgs) + after;
    KeysAppend(keyArgs, after);
    Builds(m.key, ":" + (v + rest), Keys(after));
    StringKeyOf(m.key);
    DistinctIndex(ms, i);
    assert slots[|keyArgs|..] == after;
    assert Keys(slots)[..|keyArgs|] == keyArgs;
    Takes(m.value, rest, more);
  }

  lemma {:induction false} TakesMembers(members: seq<ItemMember>, trailing: bool, tail: string, more: seq<Slot>, ms: seq<Member>, i: nat)
    requires forall k | 0 <= k < |members| :: SizedMember(members[k]) && PlainMember(members[k])
    requires StartsWith(tail, '}') && DistinctKeys(ms) && i + |members| == |ms|
    requires forall k | 0 <= k < |members| :: ms[i + k] == MemberOf(members[k])
    ensures TakeStruct(ms, FormatOfMembers(members, trailing, true) + tail, SlotsOfMembers(members) + more)
         == Taken(tail, more, ArgsOfMembers(members))
    decreases members, 0
  {
    hide FormatOfMember, ArgsOfMember, SlotsOfMember, TakeStruct, MemberOf;
    if members == [] {
      TakesStar(ms, tail, more);
      assert [] + more == more;
    } else {
      var m := members[0];
      var rest := "," + (FormatOfMembers(members[1..], trailing, true) + tail);
      var after := SlotsOfMembers(members[1..]) + more;
      assert FormatOfMembers(members, trailing, true) + tail == FormatOfMember(m, true) + rest;
      assert rest[1..] == FormatOfMembers(members[1..], trailing, true) + tail;
      assert SlotsOfMembers(members) + more == SlotsOfMember(m) + after;
      assert ms[i + 0] == MemberOf(m);
      TakesMember(m, rest, after, ms, i);
      forall k | 0 <= k < |members[1..]|
        ensures ms[i + 1 + k] == MemberOf(members[1..][k])
      {
        assert ms[i + (k + 1)] == MemberOf(members[k + 1]);
      }
      TakesMembers(members[1..], trailing, tail, more, ms, i + 1);
    }
  }

  lemma {:induction false} TakesStar(ms: seq<Member>, tail: string, more: seq<Slot>)
    requires StartsWith(tail, '}')
    ensures TakeStruct(ms, "*" + tail, more) == Taken(tail, more, [])
  {
    assert ("*" + tail)[1..] == tail && ("*" + tail)[1] == tail[0];
  }

  /** Building a value and taking it apart with the same format, each struct closed by an asterisk,
      gives back the arguments in order, and both cursors stop at the end of the format. */
  lemma {:induction false} RoundTrip(item: Item)
    requires Sized(item) && Plain(item)
    ensures BuildValue(FormatOf(item, false), ArgsOf(item)) == Built(ValueOf(item), "", [])
    ensures TakeValue(ValueOf(item), FormatOf(item, true), SlotsOf(item)) == Taken("", [], ArgsOf(item))
  {
    hide FormatOf, ArgsOf, ValueOf, SlotsOf, TakeValue, BuildValue;
    Builds(item, "", []);
    Takes(item, "", []);
    assert FormatOf(item, false) + "" == FormatOf(item, false) && FormatOf(item, true) + "" == FormatOf(item, true);
    assert ArgsOf(item) + [] == ArgsOf(item) && SlotsOf(item) + [] == SlotsOf(item);
  }

  // ---------------------------------------------------------------- what is refused

  /** A group whose value is of another type is a type fault, whatever stands in it. */
  lemma {:induction false} GroupNeedsType(v: Value, f: string, slots: seq<Slot>)
    ensures !v.Array? ==> TakeValue(v, "(" + f, slots) == Failed(TYPE_ERROR)
    ensures !v.Struct? ==> TakeValue(v, "{" + f, slots) == Failed(TYPE_ERROR)
  {
  }

  /** Building: a group that is not closed, a member without a colon or without a comma or brace after it,
      is an internal fault, and a key that is not a string a type fault. */
  lemma {:induction false} BuildingRefused(key: Item, value: Item, tail: string, more: seq<Arg>)
    requires Sized(key) && Sized(value) && !StartsWith(tail, '#')
    ensures var k, v := FormatOf(key, false), FormatOf(value, false);
            var args := ArgsOf(key) + (ArgsOf(value) + more);
            && BuildValue("(" + k, ArgsOf(key)) == Refused(INTERNAL_ERROR)
            && (!StartsWith(tail, ':') ==> BuildValue("{" + (k + tail), ArgsOf(key) + more) == Refused(INTERNAL_ERROR))
            && (!StartsWith(tail, ',') && !StartsWith(tail, '}') ==>
                  BuildValue("{" + (k + (":" + (v + tail))), args) == Refused(INTERNAL_ERROR))
            && ((StartsWith(tail, ',') || StartsWith(tail, '}')) && !ValueOf(key).Str? ==>
                  BuildValue("{" + (k + (":" + (v + tail))), args) == Refused(TYPE_ERROR))
  {
    hide FormatOf, ArgsOf, ValueOf, BuildValue;
    var k, v := FormatOf(key, false), FormatOf(value, false);
    var args := ArgsOf(key) + (ArgsOf(value) + more);
    HeadOf(key, false);
    Builds(key, "", []);
    assert k + "" == k && ArgsOf(key) + [] == ArgsOf(key);
    assert ("(" + k)[1..] == k;
    BuildsGroup("(" + k, ArgsOf(key));
    assert ("{" + (k + tail))[1..] == k + tail;
    BuildsGroup("{" + (k + tail), ArgsOf(key) + more);
    Builds(key, tail, more);
    var whole := "{" + (k + (":" + (v + tail)));
    assert whole[1..] == k + (":" + (v + tail));
    BuildsGroup(whole, args);
    Builds(key, ":" + (v + tail), ArgsOf(value) + more);
    assert (":" + (v + tail))[1..] == v + tail;
    Builds(value, tail, more);
  }

  /** What no specifier is, and a format that has ended, is an internal fault; so is a value passed as an
      array or a struct that is none. */
  lemma {:induction false} SpecifierRefused(c: char, f: string, args: seq<Arg>, v: Value, slots: seq<Slot>)
    ensures c !in "dwibs86npVAS({" ==>
              BuildValue([c] + f, args) == Refused(INTERNAL_ERROR) && TakeValue(v, [c] + f, slots) == Failed(INTERNAL_ERROR)
    ensures BuildValue("", args) == Refused(INTERNAL_ERROR) && TakeValue(v, "", slots) == Failed(INTERNAL_ERROR)
    ensures BuildValue("A" + f, [CValue(v)] + args) == if v.Array? then Built(v, f, args) else Refused(INTERNAL_ERROR)
    ensures BuildValue("S" + f, [CValue(v)] + args) == if v.Struct? then Built(v, f, args) else Refused(INTERNAL_ERROR)
    ensures BuildValue("V" + f, [CValue(v)] + args) == Built(v, f, args)
  {
    hide BuildArray, BuildStruct, TakeArray, TakeStruct, CString;
    assert ([c] + f)[1..] == f && ("A" + f)[1..] == f && ("S" + f)[1..] == f && ("V" + f)[1..] == f;
    assert ([CValue(v)] + args)[1..] == args;
    assert forall d | d in {'i', 'b', 's', '8', '6', 'n', 'p', 'V', 'A', 'S', 'd', 'w', '(', '{'} :: d in "dwibs86npVAS({" by {
      SpecifierList();
    }
  }

  lemma {:induction false} SpecifierList()
    ensures forall d | d in {'i', 'b', 's', '8', '6', 'n', 'p', 'V', 'A', 'S', 'd', 'w', '(', '{'} :: d in "dwibs86npVAS({"
  {
    var all := "dwibs86npVAS({";
    assert all[0] == 'd' && all[1] == 'w' && all[2] == 'i' && all[3] == 'b' && all[4] == 's' && all[5] == '8' && all[6] == '6';
    assert all[7] == 'n' && all[8] == 'p' && all[9] == 'V' && all[10] == 'A' && all[11] == 'S' && all[12] == '(' && all[13] == '{';
  }

  /** Taking a member: a key that is not a string is a type fault, and a key the struct lacks an index
      fault, whatever follows. */
  lemma {:induction false} MemberRefused(ms: seq<Member>, key: Item, f: string, slots: seq<Slot>)
    requires Sized(key)
    ensures var r := TakeStruct(ms, FormatOf(key, false) + (":" + f), AllGiven(ArgsOf(key)) + slots);
            && (!ValueOf(key).Str? ==> r == Failed(TYPE_ERROR))
            && (ValueOf(key).Str? && KeyIndex(ms, ValueOf(key).s) == |ms| ==> r == Failed(INDEX_ERROR))
  {
    hide FormatOf, ArgsOf, ValueOf, TakeValue, BuildValue, KeyIndex, Keys, Filled, Sized;
    HeadOf(key, false);
    KeysAppend(ArgsOf(key), slots);
    Builds(key, ":" + f, Keys(slots));
  }

  /** One turn of the loop of parsestruct. */
  lemma {:induction false} TakesMemberTurn(ms: seq<Member>, f: string, slots: seq<Slot>)
    requires f != [] && f[0] !in {'*', '}'}
    ensures var keys := Keys(slots);
            TakeStruct(ms, f, slots)
            == match BuildValue(f, keys)
               case Refused(code) => Failed(code)
               case Misused => Broken
               case Built(key, rest, left) =>
                 if |left| > |keys| || !StartsWith(rest, ':') then Broken
                 else if !key.Str? then Failed(TYPE_ERROR)
                 else
                   var used := |keys| - |left|;
                   var i := KeyIndex(ms, key.s);
                   if i == |ms| then Failed(INDEX_ERROR)
                   else match TakeValue(ms[i].value, rest[1..], slots[used..])
                     case Failed(code) => Failed(code)
                     case Broken => Broken
                     case Taken(rest, left, filled) =>
                       if !StartsWith(rest, ',') && !StartsWith(rest, '}') then Broken
                       else Filled(keys[..used] + filled, TakeStruct(ms, if rest[0] == ',' then rest[1..] else rest, left))
  {
    hide TakeValue, BuildValue, KeyIndex, Keys, Filled;
  }

  /** A struct group ends in an asterisk, and the asterisk ends it: at the end of the members nothing else
      will do, and nothing may follow it. */
  lemma {:induction false} StructEnds(ms: seq<Member>, f: string, slots: seq<Slot>)
    ensures f == "" || f[0] == '}' ==> TakeStruct(ms, f, slots) == Failed(INTERNAL_ERROR)
    ensures TakeStruct(ms, "*" + f, slots) == if f == "" || f[0] == '}' then Taken(f, slots, []) else Failed(INTERNAL_ERROR)
  {
    assert ("*" + f)[1..] == f;
  }

  // ---------------------------------------------------------------- arrays longer than their format

  lemma {:induction false} ArrayEnds(extra: seq<Value>, tail: string, more: seq<Slot>)
    ensures TakeArray(extra, "*)" + tail, more) == Taken(")" + tail, more, [])
    ensures TakeArray(extra, ")" + tail, more) == if extra == [] then Taken(")" + tail, more, []) else Failed(INDEX_ERROR)
  {
    assert ("*)" + tail)[1..] == ")" + tail;
  }

  /** An array group that ends in an asterisk takes its items from an array with any number of further
      items; without the asterisk there must be none. */
  lemma {:induction false} ArrayAsterisk(items: seq<Item>, extra: seq<Value>, tail: string, more: seq<Slot>)
    requires forall k | 0 <= k < |items| :: Sized(items[k]) && Plain(items[k])
    ensures var v, f, slots := Array(ValuesOf(items) + extra), "(" + FormatOfItems(items, true), SlotsOfItems(items) + more;
            && TakeValue(v, f + "*)" + tail, slots) == Taken(tail, more, ArgsOfItems(items))
            && TakeValue(v, f + ")" + tail, slots)
               == if extra == [] then Taken(tail, more, ArgsOfItems(items)) else Failed(INDEX_ERROR)
  {
    hide TakeValue, FormatOfItems, SlotsOfItems, ValuesOf, ArgsOfItems, TakeArray;
    var v, inner, slots := Array(ValuesOf(items) + extra), FormatOfItems(items, true), SlotsOfItems(items) + more;
    forall close | close in ["*)", ")"]
      ensures TakeValue(v, "(" + inner + close + tail, slots)
           == match Filled(ArgsOfItems(items), TakeArray(extra, close + tail, more))
              case Taken(rest, left, filled) => if rest == [] then Broken else Taken(rest[1..], left, filled)
              case bad => bad
    {
      var f := "(" + inner + close + tail;
      TakesPrefix(items, extra, close + tail, more);
      assert f[1..] == inner + (close + tail);
      TakesGroup(v, f, slots);
    }
    ArrayEnds(extra, tail, more);
    assert (")" + tail)[1..] == tail;
    assert ArgsOfItems(items) + [] == ArgsOfItems(items);
    assert "*)" in ["*)", ")"] && ")" in ["*)", ")"];
  }

  /** An array with fewer items than its format names is refused, asterisk or not. */
  lemma {:induction false} ArrayTooShort(items: seq<Item>, missing: seq<Item>, tail: string, more: seq<Slot>)
    requires (forall k | 0 <= k < |items| :: Sized(items[k]) && Plain(items[k])) && missing != [] && !StartsWith(tail, '#')
    ensures TakeValue(Array(ValuesOf(items)), "(" + FormatOfItems(items + missing, true) + tail, SlotsOfItems(items) + more)
         == Failed(INDEX_ERROR)
  {
    hide TakeValue, FormatOf, SlotsOfItems, ValuesOf, ArgsOfItems;
    var v, f, slots := Array(ValuesOf(items)), "(" + FormatOfItems(items + missing, true) + tail, SlotsOfItems(items) + more;
    var rest := FormatOfItems(missing, true) + tail;
    HeadOf(missing[0], true);
    HeadOfClosed(missing, tail);
    FormatAppend(items, missing);
    TakesPrefix(items, [], rest, more);
    assert ValuesOf(items) + [] == ValuesOf(items);
    assert f[1..] == FormatOfItems(items, true) + rest;
    TakesGroup(v, f, slots);
  }

  lemma {:induction false} FormatAppend(a: seq<Item>, b: seq<Item>)
    ensures FormatOfItems(a + b, true) == FormatOfItems(a, true) + FormatOfItems(b, true)
    decreases |a|
  {
    hide FormatOf;
    if a == [] {
      assert a + b == b && "" + FormatOfItems(b, true) == FormatOfItems(b, true);
    } else {
      assert (a + b)[1..] == a[1..] + b;
      FormatAppend(a[1..], b);
      assert FormatOf(a[0], true) + FormatOfItems(a[1..], true) + FormatOfItems(b, true)
          == FormatOf(a[0], true) + (FormatOfItems(a[1..], true) + FormatOfItems(b, true));
    }
  }

  // ---------------------------------------------------------------- values of another type

  predicate SameType(v: Value, w: Value)
  {
    match v
    case Int(_) => w.Int?
    case Bool(_) => w.Bool?
    case Str(_) => w.Str?
    case DateTime(_) => w.DateTime?
    case Binary(_) => w.Binary?
    case Nil => w.Nil?
    case CPtr(_) => w.CPtr?
    case Array(_) => w.Array?
    case Struct(_) => w.Struct?
  }

  /** The item of the same specifier that builds the value. */
  function Again(item: Item, v: Value): Item
  {
    match v
    case Int(i) => IInt(i)
    case Bool(b) => IBool(b)
    case Str(s) => if item.IStr? then IStr(s) else IStrN(s, |s|)
    case DateTime(text) => IDate(text)
    case Binary(data) => IBase64(data, |data|)
    case Nil => INil
    case CPtr(address) => IPointer(address)
    case Array(_) => IArrayValue(v)
    case Struct(_) => IStructValue(v)
  }

  /** A scalar format takes the value: it has the type the format builds, and if it is a string to be
      stored without its length it has no NUL. */
  predicate TakenBy(item: Item, v: Value)
    requires Sized(item) && !item.IArray? && !item.IStruct?
  {
    SameType(v, ValueOf(item)) && !(item.IStr? && v.Str? && 0 in v.s)
  }

  lemma {:induction false} AgainIs(item: Item, v: Value)
    requires Sized(item) && !item.IValue? && !item.IArray? && !item.IStruct?
    requires TakenBy(item, v) && !(v.DateTime? && 0 in v.text)
    ensures var again := Again(item, v);
            && Sized(again) && Plain(again) && !again.IArray? && !again.IStruct? && ValueOf(again) == v
            && FormatOf(again, true) == FormatOf(item, true) == FormatOf(item, false) == FormatOf(again, false)
            && SlotsOf(again) == SlotsOf(item)
  {
  }

  lemma {:induction false} ScalarOther(item: Item, v: Value, tail: string, more: seq<Slot>)
    requires Sized(item) && !item.IValue? && !item.IArray? && !item.IStruct? && !StartsWith(tail, '#')
    ensures var r := TakeValue(v, FormatOf(item, true) + tail, SlotsOf(item) + more);
            && (!TakenBy(item, v) ==> r == Failed(TYPE_ERROR))
            && (TakenBy(item, v) && v.DateTime? ==> r == Taken(tail, more, [CChars(CString(v.text))]))
  {
    hide CString, Store, TakeArray, TakeStruct;
    var f := FormatOf(item, true) + tail;
    assert f[0] == FormatOf(item, true)[0];
    if item.IStrN? {
      assert f[1..] == "#" + tail;
    } else {
      assert f[1..] == tail;
      if item.IDate? && v.DateTime? {
        StoreAll(tail, 1, more, [CChars(CString(v.text))]);
      }
    }
  }

  /** Whatever value is taken apart: a scalar format takes exactly the values of the type it builds, but
      no string with a NUL without asking for its length; what it stores then builds that value again,
      up to a NUL in a date. Any other value is a type fault. */
  lemma {:induction false} ScalarExactly(item: Item, v: Value, tail: string, more: seq<Slot>)
    requires Sized(item) && !item.IValue? && !item.IArray? && !item.IStruct? && !StartsWith(tail, '#')
    ensures var r := TakeValue(v, FormatOf(item, true) + tail, SlotsOf(item) + more);
            if !TakenBy(item, v) then r == Failed(TYPE_ERROR)
            else
              && r.Taken? && r.rest == tail && r.left == more
              && (!(v.DateTime? && 0 in v.text) ==> BuildValue(FormatOf(item, false) + tail, r.filled) == Built(v, tail, []))
  {
    hide TakenBy, TakeValue, BuildValue, FormatOf, SlotsOf, ValueOf, CString, ArgsOf;
    if TakenBy(item, v) && !(v.DateTime? && 0 in v.text) {
      AgainIs(item, v);
      TakesScalar(Again(item, v), tail, more);
      Builds(Again(item, v), tail, []);
      assert ArgsOf(Again(item, v)) + [] == ArgsOf(Again(item, v));
    } else {
      ScalarOther(item, v, tail, more);
    }
  }

  // ---------------------------------------------------------------- every format that builds

  /** The item read where building `f` from `args` gives `r`. */
  ghost predicate ReadAs(item: Item, f: string, args: seq<Arg>, r: Built)
  {
    && r.Built? && Sized(item) && r.value == ValueOf(item)
    && f == FormatOf(item, false) + r.rest && args == ArgsOf(item) + r.left
  }

  lemma {:induction false} ReadScalar(f: string, args: seq<Arg>) returns (item: Item)
    requires f != [] && f[0] != '(' && f[0] != '{' && BuildValue(f, args).Built?
    ensures ReadAs(item, f, args, BuildValue(f, args))
  {
    hide CString;
    var c := f[0];
    assert f == [c] + f[1..];
    if c == 'n' {
      item := INil;
      assert args == [] + args;
    } else {
      assert args == [args[0]] + args[1..];
      if c == 'i' {
        item := IInt(args[0].i);
      } else if c == 'b' {
        item := IBool(args[0].b);
      } else if c == 's' && !StartsWith(f[1..], '#') {
        item := IStr(args[0].bytes);
      } else if c == '8' {
        item := IDate(args[0].bytes);
      } else if c == 'p' {
        item := IPointer(args[0].address);
      } else if c == 'V' {
        item := IValue(args[0].v);
      } else if c == 'A' {
        item := IArrayValue(args[0].v);
      } else if c == 'S' {
        item := IStructValue(args[0].v);
      } else {
        item := ReadCounted(f, args);
      }
    }
  }

  lemma {:induction false} ReadCounted(f: string, args: seq<Arg>) returns (item: Item)
    requires (StartsWith(f, 's') && StartsWith(f[1..], '#')) || StartsWith(f, '6')
    requires BuildValue(f, args).Built?
    ensures ReadAs(item, f, args, BuildValue(f, args))
  {
    hide CString;
    assert args == [args[0], args[1]] + args[2..];
    if f[0] == 's' {
      item := IStrN(args[0].bytes, args[1].n);
      assert f == ['s', '#'] + f[1..][1..];
    } else {
      item := IBase64(args[0].bytes, args[1].n);
      assert f == ['6'] + f[1..];
    }
  }

  /** Whatever builds is an item's format with that item's arguments. */
  lemma {:induction false} ReadItem(f: string, args: seq<Arg>) returns (item: Item)
    requires BuildValue(f, args).Built?
    ensures ReadAs(item, f, args, BuildValue(f, args))
    decreases |f|, 0
  {
    hide BuildArray, BuildStruct, FormatOfItems, FormatOfMembers, ArgsOfItems, ArgsOfMembers, BuildScalar, ValuesOf, MembersOf;
    if f[0] == '(' {
      BuildsGroup(f, args);
      var items := ReadItems(f[1..], args, []);
      item := IArray(items);
      var r := BuildArray(f[1..], args, []);
      assert [] + ValuesOf(items) == ValuesOf(items);
      Enclosed('(', f, FormatOfItems(items, false), r.rest);
    } else if f[0] == '{' {
      BuildsGroup(f, args);
      var members, trailing := ReadMembers(f[1..], args, []);
      item := IStruct(members, trailing);
      var r := BuildStruct(f[1..], args, []);
      Enclosed('{', f, FormatOfMembers(members, trailing, false), r.rest);
    } else {
      item := ReadScalar(f, args);
    }
  }

  lemma {:induction false} Enclosed(open: char, f: string, inner: string, rest: string)
    requires f != [] && f[0] == open && f[1..] == inner + rest && rest != []
    ensures f == [open] + inner + [rest[0]] + rest[1..]
  {
  }

  lemma {:induction false} Assoc<T>(a: seq<T>, b: seq<T>, c: seq<T>)
    ensures a + (b + c) == a + b + c
  {
  }

  lemma {:induction false} MoreItems(first: Item, others: seq<Item>)
    ensures FormatOfItems([first] + others, false) == FormatOf(first, false) + FormatOfItems(others, false)
    ensures ArgsOfItems([first] + others) == ArgsOf(first) + ArgsOfItems(others)
    ensures Sized(first) && (forall k | 0 <= k < |others| :: Sized(others[k])) ==>
              (forall k | 0 <= k < |[first] + others| :: Sized(([first] + others)[k]))
              && ValuesOf([first] + others) == [ValueOf(first)] + ValuesOf(others)
  {
    hide FormatOf, ArgsOf, ValueOf, Sized;
    assert ([first] + others)[1..] == others;
  }

  lemma {:induction false} ReadItems(f: string, args: seq<Arg>, vs: seq<Value>) returns (items: seq<Item>)
    requires BuildArray(f, args, vs).Built?
    ensures forall k | 0 <= k < |items| :: Sized(items[k])
    ensures var r := BuildArray(f, args, vs);
            && r.value == Array(vs + ValuesOf(items))
            && f == FormatOfItems(items, false) + r.rest && args == ArgsOfItems(items) + r.left
    decreases |f|, 1
  {
    hide BuildValue, FormatOf, ArgsOf, ValueOf, Sized;
    if f[0] == ')' {
      items := [];
      assert vs + [] == vs && "" + f == f && [] + args == args;
    } else {
      var first := ReadItem(f, args);
      var r := BuildValue(f, args);
      var s := BuildArray(r.rest, r.left, vs + [r.value]);
      assert BuildArray(f, args, vs) == s;
      hide BuildArray, FormatOfItems, ArgsOfItems, ValuesOf;
      var others := ReadItems(r.rest, r.left, vs + [r.value]);
      items := [first] + others;
      MoreItems(first, others);
      Assoc(FormatOf(first, false), FormatOfItems(others, false), s.rest);
      Assoc(ArgsOf(first), ArgsOfItems(others), s.left);
      Assoc(vs, [r.value], ValuesOf(others));
    }
  }

  /** The member read at the head of a struct format, with what follows it. */
  lemma {:induction false} ReadMember(f: string, args: seq<Arg>, ms: seq<Member>) returns (m: ItemMember, rest: string, left: seq<Arg>)
    requires !StartsWith(f, '}') && BuildStruct(f, args, ms).Built?
    ensures SizedMember(m) && |rest| < |f| && (StartsWith(rest, ',') || StartsWith(rest, '}'))
    ensures f == FormatOfMember(m, false) + rest && args == ArgsOfMember(m) + left
    ensures BuildStruct(f, args, ms)
         == BuildStruct(if rest[0] == ',' then rest[1..] else rest, left, SetMember(ms, MemberOf(m).key, MemberOf(m).value))
    decreases |f|, 1
  {
    hide BuildValue, FormatOf, ArgsOf, ValueOf, SetMember, KeyOf, StringKey;
    var key := ReadItem(f, args);
    var r := BuildValue(f, args);
    var value := ReadItem(r.rest[1..], r.left);
    var s := BuildValue(r.rest[1..], r.left);
    m := ItemMember(key, value);
    rest, left := s.rest, s.left;
    StringsOnly(key);
    StringKeyOf(key);
    assert r.rest == ":" + r.rest[1..];
    assert FormatOf(key, false) + (":" + (FormatOf(value, false) + rest)) == FormatOf(key, false) + ":" + FormatOf(value, false) + rest;
    assert ArgsOf(key) + (ArgsOf(value) + left) == ArgsOf(key) + ArgsOf(value) + left;
  }

  lemma {:induction false} StringsOnly(key: Item)
    requires Sized(key) && ValueOf(key).Str?
    ensures StringKey(key)
  {
  }

  lemma {:induction false} ReadMembers(f: string, args: seq<Arg>, ms: seq<Member>) returns (members: seq<ItemMember>, trailing: bool)
    requires BuildStruct(f, args, ms).Built?
    ensures (forall k | 0 <= k < |members| :: SizedMember(members[k])) && (trailing ==> members != [])
    ensures var r := BuildStruct(f, args, ms);
            && r.value == Struct(MembersOf(members, ms))
            && f == FormatOfMembers(members, trailing, false) + r.rest && args == ArgsOfMembers(members) + r.left
    decreases |f|, 2
  {
    hide BuildValue, FormatOfMember, ArgsOfMember, SetMember, MemberOf, SizedMember;
    if StartsWith(f, '}') {
      members, trailing := [], false;
      assert "" + f == f && [] + args == args;
    } else {
      hide BuildStruct, FormatOfMembers, ArgsOfMembers, MembersOf;
      var m, rest, left := ReadMember(f, args, ms);
      var ms' := SetMember(ms, MemberOf(m).key, MemberOf(m).value);
      var comma := if rest[0] == ',' then "," else "";
      var next := if rest[0] == ',' then rest[1..] else rest;
      assert rest == comma + next;
      var others, last := ReadMembers(next, left, ms');
      var s := BuildStruct(next, left, ms');
      if comma == "" {
        NoneAfterBrace(next, others, last, s.rest);
      }
      members := [m] + others;
      trailing := last || (comma == "," && others == []);
      MoreMembers(m, others, last, trailing, comma, ms);
      Assoc(comma, FormatOfMembers(others, last, false), s.rest);
      Assoc(FormatOfMember(m, false), comma + FormatOfMembers(others, last, false), s.rest);
      Assoc(FormatOfMember(m, false), comma, FormatOfMembers(others, last, false));
      Assoc(ArgsOfMember(m), ArgsOfMembers(others), s.left);
    }
  }

  lemma {:induction false} NoneAfterBrace(next: string, others: seq<ItemMember>, last: bool, rest: string)
    requires next == FormatOfMembers(others, last, false) + rest && StartsWith(next, '}')
    ensures others == []
  {
    if others != [] {
      HeadOf(others[0].key, false);
    }
  }

  lemma {:induction false} MoreMembers(m: ItemMember, others: seq<ItemMember>, last: bool, trailing: bool, comma: string, ms: seq<Member>)
    requires comma == "," || (comma == "" && others == [])
    requires (last ==> others != []) && trailing == (last || (comma == "," && others == []))
    requires SizedMember(m) && forall k | 0 <= k < |others| :: SizedMember(others[k])
    ensures FormatOfMembers([m] + others, trailing, false) == FormatOfMember(m, false) + comma + FormatOfMembers(others, last, false)
    ensures ArgsOfMembers([m] + others) == ArgsOfMember(m) + ArgsOfMembers(others)
    ensures forall k | 0 <= k < |[m] + others| :: SizedMember(([m] + others)[k])
    ensures MembersOf([m] + others, ms) == MembersOf(others, SetMember(ms, MemberOf(m).key, MemberOf(m).value))
  {
    hide FormatOfMember, ArgsOfMember, SetMember, MemberOf, SizedMember;
    assert ([m] + others)[1..] == others;
  }

  /** The whole story for any format: if it builds a value from its arguments, it is the format of an
      item, and unless texts are cut short or keys repeat, taking the value apart with the closed
      format gives back those arguments. */
  lemma {:induction false} AnyFormat(f: string, args: seq<Arg>) returns (item: Item)
    requires BuildValue(f, args).Built? && BuildValue(f, args).rest == "" && BuildValue(f, args).left == []
    ensures Sized(item) && f == FormatOf(item, false) && args == ArgsOf(item) && BuildValue(f, args).value == ValueOf(item)
    ensures Plain(item) ==>
              TakeValue(BuildValue(f, args).value, FormatOf(item, true), SlotsOf(item)) == Taken("", [], args)
  {
    hide BuildValue, TakeValue, FormatOf, ArgsOf, ValueOf, SlotsOf, Plain;
    item := ReadItem(f, args);
    assert FormatOf(item, false) + "" == FormatOf(item, false) && ArgsOf(item) + [] == ArgsOf(item);
    if Plain(item) {
      RoundTrip(item);
    }
  }

  // ---------------------------------------------------------------- without the asterisks

  predicate HasStruct(item: Item)
    decreases item
  {
    item.IStruct? || (item.IArray? && exists k | 0 <= k < |item.items| :: HasStruct(item.items[k]))
  }

  lemma {:induction false} SameWithoutStruct(item: Item)
    requires !HasStruct(item)
    ensures FormatOf(item, false) == FormatOf(item, true)
    decreases item, 1
  {
    if item.IArray? {
      SameItems(item.items);
    }
  }

  lemma {:induction false} SameItems(items: seq<Item>)
    requires forall k | 0 <= k < |items| :: !HasStruct(items[k])
    ensures FormatOfItems(items, false) == FormatOfItems(items, true)
    decreases items, 0
  {
    hide FormatOf, HasStruct;
    if items != [] {
      SameWithoutStruct(items[0]);
      SameItems(items[1..]);
    }
  }

  lemma {:induction false} OpenFails(item: Item, tail: string, more: seq<Slot>)
    requires Sized(item) && Plain(item) && HasStruct(item)
    ensures TakeValue(ValueOf(item), FormatOf(item, false) + tail, SlotsOf(item) + more) == Failed(INTERNAL_ERROR)
    decreases item, 1
  {
    hide TakeArray, TakeStruct, TakeValue, FormatOfItems, FormatOfMembers, SlotsOfItems, SlotsOfMembers, ValuesOf, MembersOf,
         SizedMember, PlainMember;
    TakesGroup(ValueOf(item), FormatOf(item, false) + tail, SlotsOf(item) + more);
    if item.IArray? {
      Bracketed('(', FormatOfItems(item.items, false), ')', tail);
      OpenFailsItems(item.items, [')'] + tail, more);
    } else {
      Bracketed('{', FormatOfMembers(item.members, item.trailing, false), '}', tail);
      PlainStruct(item);
      OpenFailsMembers(item.members, item.trailing, ['}'] + tail, more, MemberList(item.members), 0);
    }
  }

  lemma {:induction false} OpenFailsItems(items: seq<Item>, tail: string, more: seq<Slot>)
    requires (forall k | 0 <= k < |items| :: Sized(items[k]) && Plain(items[k])) && StartsWith(tail, ')')
    requires exists k | 0 <= k < |items| :: HasStruct(items[k])
    ensures TakeArray(ValuesOf(items), FormatOfItems(items, false) + tail, SlotsOfItems(items) + more) == Failed(INTERNAL_ERROR)
    decreases items, 0
  {
    hide FormatOf, ValueOf, SlotsOf, TakeValue, HasStruct, Sized, Plain;
    var head, rest := FormatOf(items[0], false), FormatOfItems(items[1..], false);
    var after := SlotsOfItems(items[1..]) + more;
    HeadOf(items[0], false);
    assert FormatOfItems(items, false) + tail == head + (rest + tail);
    assert SlotsOfItems(items) + more == SlotsOf(items[0]) + after;
    assert ValuesOf(items)[0] == ValueOf(items[0]) && ValuesOf(items)[1..] == ValuesOf(items[1..]);
    if HasStruct(items[0]) {
      OpenFails(items[0], rest + tail, after);
    } else {
      SameWithoutStruct(items[0]);
      HeadOfItems(items[1..], tail);
      Takes(items[0], rest + tail, after);
      var k :| 0 <= k < |items| && HasStruct(items[k]);
      assert HasStruct(items[1..][k - 1]);
      OpenFailsItems(items[1..], tail, more);
    }
  }

  lemma {:induction false} OpenFailsMembers(members: seq<ItemMember>, trailing: bool, tail: string, more: seq<Slot>, ms: seq<Member>, i: nat)
    requires forall k | 0 <= k < |members| :: SizedMember(members[k]) && PlainMember(members[k])
    requires StartsWith(tail, '}') && DistinctKeys(ms) && i + |members| == |ms|
    requires forall k | 0 <= k < |members| :: ms[i + k] == MemberOf(members[k])
    ensures TakeStruct(ms, FormatOfMembers(members, trailing, false) + tail, SlotsOfMembers(members) + more) == Failed(INTERNAL_ERROR)
    decreases members, 0
  {
    hide FormatOfMembers, SlotsOfMembers, FormatOfMember, SlotsOfMember, TakeStruct, MemberOf, SizedMember, PlainMember, DistinctKeys;
    if members == [] {
      NoMembersLeft(trailing, tail, more);
      NoStar(ms, tail, more);
    } else {
      var m := members[0];
      var comma := if |members| > 1 || trailing then "," else "";
      var next := FormatOfMembers(members[1..], trailing, false) + tail;
      SplitMembers(members, trailing, tail, more);
      assert ms[i + 0] == MemberOf(m);
      NoComma(members, trailing, tail);
      assert comma == "," ==> (comma + next)[1..] == next;
      forall k | 0 <= k < |members[1..]|
        ensures ms[i + 1 + k] == MemberOf(members[1..][k])
      {
        assert ms[i + (k + 1)] == MemberOf(members[k + 1]);
      }
      OpenFailsMembers(members[1..], trailing, tail, more, ms, i + 1);
      OpenFailsMember(m, comma + next, SlotsOfMembers(members[1..]) + more, ms, i);
    }
  }

  lemma {:induction false} NoMembersLeft(trailing: bool, tail: string, more: seq<Slot>)
    ensures FormatOfMembers([], trailing, false) + tail == tail && SlotsOfMembers([]) + more == more
  {
  }

  lemma {:induction false} SplitMembers(members: seq<ItemMember>, trailing: bool, tail: string, more: seq<Slot>)
    requires members != []
    ensures FormatOfMembers(members, trailing, false) + tail
         == FormatOfMember(members[0], false)
            + ((if |members| > 1 || trailing then "," else "") + (FormatOfMembers(members[1..], trailing, false) + tail))
    ensures SlotsOfMembers(members) + more == SlotsOfMember(members[0]) + (SlotsOfMembers(members[1..]) + more)
  {
    hide FormatOfMember, SlotsOfMember;
  }

  lemma {:induction false} NoStar(ms: seq<Member>, tail: string, slots: seq<Slot>)
    requires StartsWith(tail, '}')
    ensures TakeStruct(ms, tail, slots) == Failed(INTERNAL_ERROR)
  {
  }

  lemma {:induction false} OpenFailsMember(m: ItemMember, rest: string, more: seq<Slot>, ms: seq<Member>, i: nat)
    requires SizedMember(m) && PlainMember(m) && (StartsWith(rest, ',') || StartsWith(rest, '}'))
    requires DistinctKeys(ms) && i < |ms| && ms[i] == MemberOf(m)
    requires TakeStruct(ms, if rest[0] == ',' then rest[1..] else rest, more) == Failed(INTERNAL_ERROR)
    ensures TakeStruct(ms, FormatOfMember(m, false) + rest, SlotsOfMember(m) + more) == Failed(INTERNAL_ERROR)
    decreases m, 2
  {
    hide FormatOf, ArgsOf, ValueOf, SlotsOf, TakeValue, BuildValue, StringKey, KeyOf, KeyIndex, Keys, HasStruct;
    var k, v := FormatOf(m.key, false), FormatOf(m.value, false);
    var keyArgs, after := ArgsOf(m.key), SlotsOf(m.value) + more;
    HeadOf(m.key, false);
    var f, slots := FormatOfMember(m, false) + rest, SlotsOfMember(m) + more;
    assert f == k + (":" + (v + rest));
    assert (":" + (v + rest))[1..] == v + rest;
    assert slots == AllGiven(keyArgs) + after;
    KeysAppend(keyArgs, after);
    Builds(m.key, ":" + (v + rest), Keys(after));
    StringKeyOf(m.key);
    DistinctIndex(ms, i);
    assert slots[|keyArgs|..] == after;
    if HasStruct(m.value) {
      OpenFails(m.value, rest, more);
    } else {
      SameWithoutStruct(m.value);
      Takes(m.value, rest, more);
    }
  }

  /** The very format that built a value takes it apart again if and only if it has no struct group:
      one without an asterisk is always refused. */
  lemma {:induction false} SameFormat(item: Item)
    requires Sized(item) && Plain(item)
    ensures TakeValue(ValueOf(item), FormatOf(item, false), SlotsOf(item)).Taken? <==> !HasStruct(item)
    ensures HasStruct(item) ==> TakeValue(ValueOf(item), FormatOf(item, false), SlotsOf(item)) == Failed(INTERNAL_ERROR)
  {
    hide FormatOf, ValueOf, SlotsOf, TakeValue, BuildValue, HasStruct;
    assert FormatOf(item, false) + "" == FormatOf(item, false) && SlotsOf(item) + [] == SlotsOf(item);
    if HasStruct(item) {
      OpenFails(item, "", []);
    } else {
      SameWithoutStruct(item);
      RoundTrip(item);
    }
  }

  /** The smallest case: "{s:i}" builds a struct of one member, "{s:i,*}" takes it apart, and "{s:i}"
      does not. */
  lemma {:induction false} StructNeedsAsterisk(key: seq<byte>, i: int32)
    requires 0 !in key
    ensures BuildValue("{s:i}", [CChars(key), CInt(i)]) == Built(Struct([Member(key, Int(i))]), "", [])
    ensures TakeValue(Struct([Member(key, Int(i))]), "{s:i,*}", [Given(CChars(key)), Wanted])
         == Taken("", [], [CChars(key), CInt(i)])
    ensures !TakeValue(Struct([Member(key, Int(i))]), "{s:i}", [Given(CChars(key)), Wanted]).Taken?
  {
    hide BuildValue, TakeValue, FormatOf, ArgsOf, SlotsOf, ValueOf, Plain, HasStruct, Sized;
    var item := IStruct([OneMember(key, i)], false);
    OneMemberSpelled(key, i, false);
    OneMemberSpelled(key, i, true);
    OneMemberArgs(key, i);
    OneMemberBuilt(key, i);
    Builds(item, "", []);
    assert FormatOf(item, false) + "" == FormatOf(item, false) && ArgsOf(item) + [] == ArgsOf(item);
    RoundTrip(item);
    SameFormat(item);
  }

  function OneMember(key: seq<byte>, i: int32): ItemMember { ItemMember(IStr(key), IInt(i)) }

  lemma {:induction false} OneMemberSpelled(key: seq<byte>, i: int32, closed: bool)
    ensures FormatOf(IStruct([OneMember(key, i)], false), closed) == if closed then "{s:i,*}" else "{s:i}"
  {
    var m := OneMember(key, i);
    assert FormatOfMember(m, closed) == "s:i";
    assert [m][1..] == [] && FormatOfMembers([], false, closed) == if closed then "*" else "";
    assert FormatOfMembers([m], false, closed) == if closed then "s:i,*" else "s:i";
  }

  lemma {:induction false} OneMemberArgs(key: seq<byte>, i: int32)
    ensures var item := IStruct([OneMember(key, i)], false);
            ArgsOf(item) == [CChars(key), CInt(i)] && SlotsOf(item) == [Given(CChars(key)), Wanted]
  {
    var m := OneMember(key, i);
    assert [m][1..] == [] && ArgsOfMembers([]) == [] && SlotsOfMembers([]) == [];
    assert ArgsOfMember(m) == [CChars(key), CInt(i)];
    assert SlotsOfMember(m) == [Given(CChars(key)), Wanted];
    assert SlotsOfMembers([m]) == SlotsOfMember(m) && ArgsOfMembers([m]) == ArgsOfMember(m);
  }

  lemma {:induction false} IntMember(m: ItemMember)
    requires m.key.IStr? && 0 !in m.key.bytes && m.value.IInt?
    ensures SizedMember(m) && PlainMember(m) && MemberOf(m) == Member(m.key.bytes, Int(m.value.i))
  {
    hide CString;
    assert Sized(m.key) && Sized(m.value) && StringKey(m.key);
    assert KeyOf(m.key) == m.key.bytes && ValueOf(m.value) == Int(m.value.i);
  }

  lemma {:induction false} OneMemberBuilt(key: seq<byte>, i: int32)
    requires 0 !in key
    ensures var item := IStruct([OneMember(key, i)], false);
            Sized(item) && Plain(item) && HasStruct(item) && ValueOf(item) == Struct([Member(key, Int(i))])
  {
    var m := OneMember(key, i);
    IntMember(m);
    assert [m][1..] == [];
    assert MembersOf([], [Member(key, Int(i))]) == [Member(key, Int(i))];
    assert SetMember([], key, Int(i)) == [Member(key, Int(i))];
  }
}
