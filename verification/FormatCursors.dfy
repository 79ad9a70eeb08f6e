/**
 getValue and decomposeValue of xmlrpc_builddecomp.c as they run: one cursor moves along the format,
 another along the argument list, and the two recursive descents are proved to do what the functions
 of Formats say.
 */
module FormatCursors {
  import opened Bytes
  import opened Formats
  import opened Values
  import opened Xml

  /** What a call delivers besides moving the cursors. */
  datatype Answer<+T> = Done(value: T) | Faulted(code: int) | Undefined

  class Builder {
    const format: string
    const args: seq<Arg>
    var pos: nat
    var next: nat

    ghost predicate Valid()
      reads this
    {
      pos <= |format| && next <= |args|
    }

    constructor (format: string, args: seq<Arg>)
      ensures Valid() && this.format == format && this.args == args && pos == 0 && next == 0
    {
      this.format, this.args, pos, next := format, args, 0, 0;
    }

    /** The cursors of a call that is under way. */
    constructor Resume(format: string, pos: nat, args: seq<Arg>)
      requires pos <= |format|
      ensures Valid() && this.format == format && this.args == args && this.pos == pos && next == 0
    {
      this.format, this.args, this.pos, next := format, args, pos, 0;
    }

    /** The answer and the cursors are those of `spec`. */
    ghost predicate Follows(r: Answer<Value>, spec: Built)
      reads this
    {
      match r
      case Done(v) => Valid() && spec == Built(v, format[pos..], args[next..])
      case Faulted(code) => spec == Refused(code)
      case Undefined => spec == Misused
    }

    /** The character under the cursor; at the end of the format it is a NUL. */
    function At(): char
      requires Valid()
      reads this
    {
      if pos < |format| then format[pos] else '\0'
    }

    /** The cases of getValue that read their arguments and no further specifiers. */
    method GetScalar(c: char) returns (r: Answer<Value>)
      requires Valid()
      modifies this`pos, this`next
      ensures Follows(r, BuildScalar(c, old(format[pos..]), old(args[next..])))
      ensures pos >= old(pos)
    {
      ghost var f, left := format[pos..], args[next..];
      if c == 'n' {
        return Done(Nil);
      }
      if c !in {'i', 'b', 's', '8', '6', 'p', 'V', 'A', 'S'} {
        if c in {'d', 'w'} {
          return Undefined;
        }
        return Faulted(INTERNAL_ERROR);
      }
      if next == |args| {
        return Undefined;
      }
      var arg := args[next];
      next := next + 1;
      assert left[0] == arg && left[1..] == args[next..];
      match arg {
        case CInt(i) => if c == 'i' { return Done(Int(i)); }
        case CBool(b) => if c == 'b' { return Done(Bool(b)); }
        case CPointer(address) => if c == 'p' { return Done(CPtr(address)); }
        case CChars(bytes) =>
          if c == '8' {
            return Done(DateTime(CString(bytes)));
          }
          if c == 's' && !(pos < |format| && format[pos] == '#') {
            return Done(Str(CString(bytes)));
          }
          if c == 's' || c == '6' {
            if c == 's' {
              pos := pos + 1;
              assert f[1..] == format[pos..];
            }
            if next < |args| && args[next].CSize? && args[next].n <= |bytes| {
              var n := args[next].n;
              next := next + 1;
              assert left[1].n == n && left[2..] == args[next..];
              return Done(if c == 's' then Str(bytes[..n]) else Binary(bytes[..n]));
            }
          }
        case CValue(v) =>
          if c == 'V' || (c == 'A' && v.Array?) || (c == 'S' && v.Struct?) {
            return Done(v);
          }
          if c == 'A' || c == 'S' {
            return Faulted(INTERNAL_ERROR);
          }
        case CSize(_) =>
      }
      return Undefined;
    }

    /** getValue */
    method GetValue() returns (r: Answer<Value>)
      requires Valid()
      modifies this`pos, this`next
      ensures Follows(r, BuildValue(old(format[pos..]), old(args[next..])))
      ensures pos >= old(pos) && (r.Done? ==> pos > old(pos))
      decreases |format| - pos, 0
    {
      hide BuildScalar, BuildArray, BuildStruct;
      if pos == |format| {
        return Faulted(INTERNAL_ERROR);
      }
      var formatChar := format[pos];
      ghost var f, left := format[pos..], args[next..];
      pos := pos + 1;
      assert f[0] == formatChar && f[1..] == format[pos..];
      if formatChar == '(' {
        var items := GetArray();
        match items {
          case Done(vs) =>
            assert format[pos..][1..] == format[pos + 1..];
            pos := pos + 1;
            return Done(Array(vs));
          case Faulted(code) => return Faulted(code);
          case Undefined => return Undefined;
        }
      } else if formatChar == '{' {
        var members := GetStruct();
        match members {
          case Done(ms) =>
            assert format[pos..][1..] == format[pos + 1..];
            pos := pos + 1;
            return Done(Struct(ms));
          case Faulted(code) => return Faulted(code);
          case Undefined => return Undefined;
        }
      } else {
        r := GetScalar(formatChar);
      }
    }

    /** getArray: items until the closing parenthesis. */
    method GetArray() returns (r: Answer<seq<Value>>)
      requires Valid()
      modifies this`pos, this`next
      ensures match r
              case Done(vs) =>
                && Valid() && pos < |format|
                && BuildArray(old(format[pos..]), old(args[next..]), []) == Built(Array(vs), format[pos..], args[next..])
              case Faulted(code) => BuildArray(old(format[pos..]), old(args[next..]), []) == Refused(code)
              case Undefined => BuildArray(old(format[pos..]), old(args[next..]), []) == Misused
      ensures pos >= old(pos)
      decreases |format| - pos, 1
    {
      hide BuildValue;
      var items: seq<Value> := [];
      ghost var spec := BuildArray(format[pos..], args[next..], []);
      while At() != ')'
        invariant Valid() && pos >= old(pos)
        invariant BuildArray(format[pos..], args[next..], items) == spec
        decreases |format| - pos
      {
        if pos == |format| {
          return Faulted(INTERNAL_ERROR);
        }
        var item := GetValue();
        match item {
          case Done(v) => items := items + [v];
          case Faulted(code) => return Faulted(code);
          case Undefined => return Undefined;
        }
      }
      return Done(items);
    }

    /** getStructMember: a key, a colon, a value. */
    method GetStructMember() returns (r: Answer<(Value, Value)>, ghost mid: Built)
      requires Valid()
      modifies this`pos, this`next
      ensures mid == BuildValue(old(format[pos..]), old(args[next..]))
      ensures match r
              case Done((key, value)) =>
                && Valid() && mid.Built? && mid.value == key && StartsWith(mid.rest, ':')
                && BuildValue(mid.rest[1..], mid.left) == Built(value, format[pos..], args[next..])
              case Faulted(code) =>
                || mid == Refused(code)
                || (mid.Built? && !StartsWith(mid.rest, ':') && code == INTERNAL_ERROR)
                || (mid.Built? && StartsWith(mid.rest, ':') && BuildValue(mid.rest[1..], mid.left) == Refused(code))
              case Undefined =>
                mid == Misused || (mid.Built? && StartsWith(mid.rest, ':') && BuildValue(mid.rest[1..], mid.left) == Misused)
      ensures pos >= old(pos) && (r.Done? ==> pos > old(pos))
      decreases |format| - pos, 1
    {
      hide BuildValue;
      mid := BuildValue(format[pos..], args[next..]);
      var key := GetValue();
      match key {
        case Faulted(code) => return Faulted(code), mid;
        case Undefined => return Undefined, mid;
        case Done(k) =>
          if !(pos < |format| && format[pos] == ':') {
            return Faulted(INTERNAL_ERROR), mid;
          }
          assert format[pos..][1..] == format[pos + 1..];
          pos := pos + 1;
          var value := GetValue();
          match value {
            case Faulted(code) => return Faulted(code), mid;
            case Undefined => return Undefined, mid;
            case Done(v) => return Done((k, v)), mid;
          }
      }
    }

    /** getStruct: members until the closing brace. */
    method GetStruct() returns (r: Answer<seq<Member>>)
      requires Valid()
      modifies this`pos, this`next
      ensures match r
              case Done(ms) =>
                && Valid() && pos < |format|
                && BuildStruct(old(format[pos..]), old(args[next..]), []) == Built(Struct(ms), format[pos..], args[next..])
              case Faulted(code) => BuildStruct(old(format[pos..]), old(args[next..]), []) == Refused(code)
              case Undefined => BuildStruct(old(format[pos..]), old(args[next..]), []) == Misused
      ensures pos >= old(pos)
      decreases |format| - pos, 2
    {
      hide BuildValue, SetMember;
      var members: seq<Member> := [];
      ghost var spec := BuildStruct(format[pos..], args[next..], []);
      while At() != '}'
        invariant Valid() && pos >= old(pos)
        invariant BuildStruct(format[pos..], args[next..], members) == spec
        decreases |format| - pos
      {
        var member, mid := GetStructMember();
        match member {
          case Faulted(code) => return Faulted(code);
          case Undefined => return Undefined;
          case Done((key, value)) =>
            if At() == ',' {
              assert format[pos..][1..] == format[pos + 1..];
              pos := pos + 1;
            } else if At() != '}' {
              return Faulted(INTERNAL_ERROR);
            }
            if !key.Str? {
              return Faulted(TYPE_ERROR);
            }
            members := SetMember(members, key.s, value);
        }
      }
      return Done(members);
    }
  }

  /** The decomposing call. `filled` records what has been passed over: keys given, results stored. */
  class Decomposer {
    const format: string
    const slots: seq<Slot>
    var pos: nat
    var next: nat
    var filled: seq<Arg>

    ghost predicate Valid()
      reads this
    {
      pos <= |format| && next <= |slots|
    }

    constructor (format: string, slots: seq<Slot>)
      ensures Valid() && this.format == format && this.slots == slots && pos == 0 && next == 0 && filled == []
    {
      this.format, this.slots, pos, next, filled := format, slots, 0, 0, [];
    }

    /** The answer, the cursors and what was filled in since `before` are those of `spec`. */
    ghost predicate Follows(r: Answer<()>, before: seq<Arg>, spec: Taken)
      reads this
    {
      match r
      case Done(_) =>
        && Valid() && before <= filled
        && spec == Taken(format[pos..], slots[next..], filled[|before|..])
      case Faulted(code) => spec == Failed(code)
      case Undefined => spec == Broken
    }

    function At(): char
      requires Valid()
      reads this
    {
      if pos < |format| then format[pos] else '\0'
    }

    /** Store results through the next pointers of the argument list. */
    method StoreResults(results: seq<Arg>) returns (r: Answer<()>)
      requires Valid()
      modifies this`next, this`filled
      ensures Follows(r, old(filled), Store(format[pos..], old(slots[next..]), results))
    {
      ghost var left := slots[next..];
      for i := 0 to |results|
        invariant Valid() && i <= |left| && left[i..] == slots[next..]
        invariant filled == old(filled) + results[..i]
        invariant forall k | 0 <= k < i :: left[k].Wanted?
      {
        if next == |slots| || !slots[next].Wanted? {
          assert i == |left| || left[i] == slots[next];
          return Undefined;
        }
        assert left[i] == slots[next];
        filled := filled + [results[i]];
        next := next + 1;
      }
      assert results[..|results|] == results;
      return Done(());
    }

    /** The cases of decomposeValue that take no further specifiers. */
    method DecomposeScalar(v: Value, c: char) returns (r: Answer<()>)
      requires Valid()
      modifies this`pos, this`next, this`filled
      ensures Follows(r, old(filled), TakeScalar(v, c, old(format[pos..]), old(slots[next..])))
      ensures pos >= old(pos)
    {
      hide Store;
      ghost var f := format[pos..];
      if c in {'d', 'w'} {
        return Undefined;
      }
      if c == 'V' {
        r := StoreResults([CValue(v)]);
        return;
      }
      if c !in {'i', 'b', '8', 's', '6', 'n', 'p', 'A', 'S'} {
        return Faulted(INTERNAL_ERROR);
      }
      match v {
        case Int(i) => if c == 'i' { r := StoreResults([CInt(i)]); return; }
        case Bool(b) => if c == 'b' { r := StoreResults([CBool(b)]); return; }
        case DateTime(text) => if c == '8' { r := StoreResults([CChars(CString(text))]); return; }
        case Binary(data) => if c == '6' { r := StoreResults([CChars(data), CSize(|data|)]); return; }
        case Nil => if c == 'n' { r := StoreResults([]); return; }
        case CPtr(address) => if c == 'p' { r := StoreResults([CPointer(address)]); return; }
        case Array(_) => if c == 'A' { r := StoreResults([CValue(v)]); return; }
        case Struct(_) => if c == 'S' { r := StoreResults([CValue(v)]); return; }
        case Str(s) =>
          if c == 's' {
            if pos < |format| && format[pos] == '#' {
              pos := pos + 1;
              assert f[1..] == format[pos..];
              r := StoreResults([CChars(s), CSize(|s|)]);
              return;
            } else if 0 !in s {
              r := StoreResults([CChars(s)]);
              return;
            }
          }
      }
      return Faulted(TYPE_ERROR);
    }

    /** decomposeValue */
    method DecomposeValue(v: Value) returns (r: Answer<()>)
      requires Valid()
      modifies this`pos, this`next, this`filled
      ensures Follows(r, old(filled), TakeValue(v, old(format[pos..]), old(slots[next..])))
      ensures pos >= old(pos) && (r.Done? ==> pos > old(pos))
      decreases |format| - pos, 0
    {
      hide TakeScalar, TakeArray, TakeStruct;
      if pos == |format| {
        return Faulted(INTERNAL_ERROR);
      }
      var formatSpecChar := format[pos];
      ghost var f := format[pos..];
      pos := pos + 1;
      assert f[0] == formatSpecChar && f[1..] == format[pos..];
      if formatSpecChar == '(' {
        if !v.Array? {
          return Faulted(TYPE_ERROR);
        }
        r := ParseArray(v.items);
        if r.Done? {
          assert format[pos..][1..] == format[pos + 1..];
          pos := pos + 1;
        }
      } else if formatSpecChar == '{' {
        if !v.Struct? {
          return Faulted(TYPE_ERROR);
        }
        r := ParseStruct(v.members);
        if r.Done? {
          if pos == |format| {
            return Undefined;
          }
          assert format[pos..][1..] == format[pos + 1..];
          pos := pos + 1;
        }
      } else {
        r := DecomposeScalar(v, formatSpecChar);
      }
    }

    /** parsearray */
    method ParseArray(items: seq<Value>) returns (r: Answer<()>)
      requires Valid()
      modifies this`pos, this`next, this`filled
      ensures Follows(r, old(filled), TakeArray(items, old(format[pos..]), old(slots[next..])))
      ensures pos >= old(pos)
      decreases |format| - pos, 1
    {
      hide TakeValue;
      ghost var before := filled;
      ghost var spec := TakeArray(items, format[pos..], slots[next..]);
      var i := 0;
      assert items[0..] == items && filled[|before|..] == [];
      FilledNone(spec);
      while i < |items| && At() != '*'
        invariant 0 <= i <= |items| && Valid() && pos >= old(pos) && before <= filled
        invariant spec == Filled(filled[|before|..], TakeArray(items[i..], format[pos..], slots[next..]))
        decreases |items| - i
      {
        if pos == |format| {
          return Undefined;
        }
        if format[pos] == ')' {
          return Faulted(INDEX_ERROR);
        }
        ghost var soFar := filled;
        ghost var rest := items[i..];
        assert rest[0] == items[i] && rest[1..] == items[i + 1..];
        r := DecomposeValue(items[i]);
        if !r.Done? {
          return;
        }
        FilledMore(soFar[|before|..], filled[|soFar|..], TakeArray(items[i + 1..], format[pos..], slots[next..]));
        assert filled[|before|..] == soFar[|before|..] + filled[|soFar|..];
        i := i + 1;
      }
      ghost var f := format[pos..];
      assert items[i..] == [] || StartsWith(f, '*');
      if At() == '*' && pos < |format| {
        pos := pos + 1;
        assert f[1..] == format[pos..];
      }
      if !(pos < |format| && format[pos] == ')') {
        return Faulted(INDEX_ERROR);
      }
      assert filled[|before|..] + [] == filled[|before|..];
      return Done(());
    }

    /** parsestruct */
    method ParseStruct(ms: seq<Member>) returns (r: Answer<()>)
      requires Valid()
      modifies this`pos, this`next, this`filled
      ensures Follows(r, old(filled), TakeStruct(ms, old(format[pos..]), old(slots[next..])))
      ensures pos >= old(pos)
      decreases |format| - pos, 2
    {
      hide TakeStruct;
      ghost var before := filled;
      ghost var spec := TakeStruct(ms, format[pos..], slots[next..]);
      assert filled[|before|..] == [];
      FilledNone(spec);
      while pos < |format| && format[pos] != '*' && format[pos] != '}'
        invariant Valid() && pos >= old(pos) && before <= filled
        invariant spec == Filled(filled[|before|..], TakeStruct(ms, format[pos..], slots[next..]))
        decreases |format| - pos
      {
        ghost var soFar := filled;
        r := ParseMember(ms);
        if !r.Done? {
          return;
        }
        FilledMore(soFar[|before|..], filled[|soFar|..], TakeStruct(ms, format[pos..], slots[next..]));
        assert filled[|before|..] == soFar[|before|..] + filled[|soFar|..];
      }
      r := ParseStar(ms);
      assert filled[|before|..] + [] == filled[|before|..];
    }

    /** The end of parsestruct. */
    method ParseStar(ms: seq<Member>) returns (r: Answer<()>)
      requires Valid() && (pos < |format| ==> format[pos] in {'*', '}'})
      modifies this`pos
      ensures match r
              case Done(_) => Valid() && TakeStruct(ms, old(format[pos..]), slots[next..]) == Taken(format[pos..], slots[next..], [])
              case Faulted(code) => TakeStruct(ms, old(format[pos..]), slots[next..]) == Failed(code)
              case Undefined => false
      ensures pos >= old(pos)
    {
      ghost var f := format[pos..];
      if pos < |format| && format[pos] == '*' {
        pos := pos + 1;
        assert f[1..] == format[pos..];
        if pos < |format| && format[pos] != '}' {
          return Faulted(INTERNAL_ERROR);
        }
        return Done(());
      }
      return Faulted(INTERNAL_ERROR);
    }

    /** The key of a member is read by the building code, from the same cursors. */
    method ReadKey() returns (key: Answer<Value>, used: nat)
      requires Valid()
      modifies this`pos
      ensures used <= |Keys(slots[next..])| && pos >= old(pos)
      ensures match key
              case Done(k) =>
                && Valid() && pos > old(pos)
                && BuildValue(old(format[pos..]), Keys(slots[next..])) == Built(k, format[pos..], Keys(slots[next..])[used..])
              case Faulted(code) => BuildValue(old(format[pos..]), Keys(slots[next..])) == Refused(code)
              case Undefined => BuildValue(old(format[pos..]), Keys(slots[next..])) == Misused
    {
      hide BuildValue, Keys;
      var keys := Keys(slots[next..]);
      var builder := new Builder.Resume(format, pos, keys);
      assert keys[0..] == keys;
      key := builder.GetValue();
      used := 0;
      if key.Done? {
        pos, used := builder.pos, builder.next;
      }
    }

    /** One turn of the loop of parsestruct. */
    method ParseMember(ms: seq<Member>) returns (r: Answer<()>)
      requires Valid() && pos < |format| && format[pos] !in {'*', '}'}
      modifies this`pos, this`next, this`filled
      ensures match r
              case Done(_) =>
                && Valid() && old(filled) <= filled
                && TakeStruct(ms, old(format[pos..]), old(slots[next..]))
                   == Filled(filled[|old(filled)|..], TakeStruct(ms, format[pos..], slots[next..]))
              case Faulted(code) => TakeStruct(ms, old(format[pos..]), old(slots[next..])) == Failed(code)
              case Undefined => TakeStruct(ms, old(format[pos..]), old(slots[next..])) == Broken
      ensures pos >= old(pos) && (r.Done? ==> pos > old(pos))
      decreases |format| - pos, 1
    {
      hide TakeValue, BuildValue, KeyIndex, Keys, Filled, TakeStruct;
      ghost var before := filled;
      var left := slots[next..];
      TakesMemberTurn(ms, format[pos..], left);
      var keys := Keys(left);
      var key, used := ReadKey();
      match key {
        case Faulted(code) => return Faulted(code);
        case Undefined => return Undefined;
        case Done(k) =>
          assert |keys| - |keys[used..]| == used;
          if !(pos < |format| && format[pos] == ':') {
            return Undefined;
          }
          if !k.Str? {
            return Faulted(TYPE_ERROR);
          }
          var i := KeyIndex(ms, k.s);
          if i == |ms| {
            return Faulted(INDEX_ERROR);
          }
          ghost var rest := format[pos..];
          pos := pos + 1;
          assert rest[1..] == format[pos..];
          next := next + used;
          assert left[used..] == slots[next..];
          filled := filled + keys[..used];
          ghost var mid := filled;
          r := DecomposeValue(ms[i].value);
          if !r.Done? {
            return;
          }
          assert filled[|before|..] == keys[..used] + filled[|mid|..];
          if At() == ',' {
            assert format[pos..][1..] == format[pos + 1..];
            pos := pos + 1;
          } else if At() != '}' {
            return Undefined;
          }
      }
    }
  }

  lemma {:induction false} FilledNone(r: Taken)
    ensures Filled([], r) == r
  {
    if r.Taken? {
      assert [] + r.filled == r.filled;
    }
  }

  lemma {:induction false} FilledMore(a: seq<Arg>, b: seq<Arg>, r: Taken)
    ensures Filled(a, Filled(b, r)) == Filled(a + b, r)
  {
    if r.Taken? {
      assert a + (b + r.filled) == a + b + r.filled;
    }
  }

  /** xmlrpc_build_value: the format must be used up. */
  method BuildWhole(format: string, args: seq<Arg>) returns (r: Answer<Value>)
    ensures match BuildValue(format, args)
            case Built(v, rest, _) => r == if rest == "" then Done(v) else Faulted(INTERNAL_ERROR)
            case Refused(code) => r == Faulted(code)
            case Misused => r == Undefined
  {
    hide BuildValue;
    var builder := new Builder(format, args);
    assert format[0..] == format && args[0..] == args;
    r := builder.GetValue();
    if r.Done? && builder.pos < |format| {
      return Faulted(INTERNAL_ERROR);
    }
  }
}
