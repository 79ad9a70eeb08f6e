/**
 convert_value of xmlrpc_parse.c on the heap: it builds the value the element tree stands for, with
 one reference to each node, and when it faults it leaves nothing behind.
 */
module HeapParse {
  import opened Bytes
  import opened Heap
  import opened HeapRuns
  import opened Sax
  import opened ValueHeap
  import opened Values
  import opened Xml
  import Base64
  import Utf8

  // ---------------------------------------------------------------- what a reference denotes

  function Scalar(v: Value): Body
    requires !v.Array? && !v.Struct?
  {
    match v
    case Int(i) => BInt(i)
    case Bool(b) => BBool(b)
    case Str(s) => BStr(s)
    case DateTime(text) => BDateTime(text)
    case Binary(data) => BBinary(data)
    case Nil => BNil
    case CPtr(address) => BCPtr(address)
  }

  predicate Denotes(cells: seq<Cell>, r: Ref, v: Value)
    decreases v, 1
  {
    InUse(cells, r) &&
    match v
    case Array(items) => cells[r].body.BArray? && DenoteItems(cells, cells[r].body.items, items)
    case Struct(ms) => cells[r].body.BStruct? && DenoteMembers(cells, cells[r].body.slots, ms)
    case _ => cells[r].body == Scalar(v)
  }

  predicate DenoteItems(cells: seq<Cell>, refs: seq<Ref>, items: seq<Value>)
    decreases items, 0
  {
    |refs| == |items| && forall k | 0 <= k < |items| :: Denotes(cells, refs[k], items[k])
  }

  predicate DenoteMembers(cells: seq<Cell>, slots: seq<Slot>, ms: seq<Member>)
    decreases ms, 0
  {
    && |slots| == |ms|
    && (forall k | 0 <= k < |ms| :: InUse(cells, slots[k].key) && cells[slots[k].key].body == BStr(ms[k].key))
    && (forall k | 0 <= k < |ms| :: Denotes(cells, slots[k].value, ms[k].value))
  }

  // ---------------------------------------------------------------- what a call has added

  /** The cells there were before are untouched; among those added since, slots point only to later
      cells, and whatever is alive has one reference. */
  ghost predicate Tidy(before: seq<Cell>, cells: seq<Cell>)
  {
    && before <= cells
    && Upward(cells, |before|)
    && (forall k | |before| <= k < |cells| && cells[k].Live? :: cells[k].rc == 1)
  }

  ghost predicate Upward(cells: seq<Cell>, n: nat)
  {
    forall o: Ref, r: Ref | Holds(cells, o, r) :: o >= n ==> r > o
  }

  predicate DeadFrom(cells: seq<Cell>, n: nat)
  {
    forall k | n <= k < |cells| :: cells[k].Dead?
  }

  lemma {:induction false} TidyThen(a: seq<Cell>, b: seq<Cell>, c: seq<Cell>)
    requires Tidy(a, b) && Tidy(b, c)
    ensures Tidy(a, c)
  {
    forall o: Ref, r: Ref | Holds(c, o, r) && o >= |a|
      ensures r > o
    {
      if o < |b| {
        assert Holds(b, o, r);
      }
    }
  }

  lemma {:induction false} TidyNew(before: seq<Cell>, cells: seq<Cell>, body: Body)
    requires Tidy(before, cells) && Refs(body) == []
    ensures Tidy(before, cells + [Live(1, body)])
  {
    var after := cells + [Live(1, body)];
    forall o: Ref, r: Ref | Holds(after, o, r) && o >= |before|
      ensures r > o
    {
      assert Holds(cells, o, r);
    }
  }

  lemma {:induction false} TidyStore(before: seq<Cell>, cells: seq<Cell>, s: Ref, body: Body)
    requires Tidy(before, cells) && |before| <= s && InUse(cells, s)
    requires forall r: Ref | r in Refs(body) :: r > s
    ensures Tidy(before, Rebody(cells, s, body))
  {
    var after := Rebody(cells, s, body);
    forall o: Ref, r: Ref | Holds(after, o, r) && o >= |before|
      ensures r > o
    {
      if o != s {
        assert Holds(cells, o, r);
      }
    }
  }

  /** Releasing references into the part added since leaves the rest alone. */
  lemma {:induction false} ReleaseLocal(cells: seq<Cell>, todo: seq<Ref>, n: nat)
    requires n <= |cells| && Upward(cells, n)
    requires forall k | 0 <= k < |todo| :: todo[k] >= n
    ensures Release(cells, todo)[..n] == cells[..n]
    decreases TotalRc(cells), |todo|
  {
    hide Refs;
    if todo != [] {
      var r := todo[0];
      if !InUse(cells, r) {
        ReleaseLocal(cells, todo[1..], n);
      } else {
        var c := cells[r];
        var less := Live(c.rc - 1, c.body);
        TotalRcUpdate(cells, r, less);
        TotalRcUpdate(cells, r, Dead);
        if c.rc > 1 {
          UpwardKept(cells, cells[r := less], n);
          ReleaseLocal(cells[r := less], todo[1..], n);
        } else {
          UpwardKept(cells, cells[r := Dead], n);
          forall k | 0 <= k < |Refs(c.body)|
            ensures Refs(c.body)[k] >= n
          {
            assert Holds(cells, r, Refs(c.body)[k]);
          }
          ReleaseLocal(cells[r := Dead], Refs(c.body) + todo[1..], n);
        }
      }
    }
  }

  lemma {:induction false} UpwardKept(before: seq<Cell>, after: seq<Cell>, n: nat)
    requires Upward(before, n)
    requires forall r: Ref | InUse(after, r) :: InUse(before, r) && after[r].body == before[r].body
    ensures Upward(after, n)
  {
    forall o: Ref, r: Ref | Holds(after, o, r)
      ensures Holds(before, o, r)
    {
    }
  }

  lemma {:induction false} TidyRelease(before: seq<Cell>, cells: seq<Cell>, todo: seq<Ref>)
    requires Tidy(before, cells)
    requires forall k | 0 <= k < |todo| :: todo[k] >= |before|
    ensures Tidy(before, Release(cells, todo))
  {
    hide Release, Upward;
    var after := Release(cells, todo);
    ReleaseLocal(cells, todo, |before|);
    ReleaseKeeps(cells, todo);
    UpwardKept(cells, after, |before|);
    forall k | |before| <= k < |after| && after[k].Live?
      ensures after[k].rc == 1
    {
      ReleaseSurvivors(cells, todo, k);
    }
  }

  /** If nothing outside holds any of what was added, nothing of it is alive. */
  lemma {:induction false} AllGone(before: seq<Cell>, cells: seq<Cell>, held: multiset<Ref>)
    requires Conserved(before, held) && Tidy(before, cells) && Conserved(cells, held)
    ensures DeadFrom(cells, |before|)
  {
    hide Conserved;
    forall k | |before| <= k < |cells|
      ensures cells[k].Dead?
    {
      if cells[k].Live? {
        Ownerless(before, cells, held, k);
      }
    }
  }

  lemma {:induction false} Ownerless(before: seq<Cell>, cells: seq<Cell>, held: multiset<Ref>, k: Ref)
    requires Conserved(before, held) && Tidy(before, cells) && Conserved(cells, held)
    requires k >= |before|
    ensures !InUse(cells, k)
    decreases k
  {
    if InUse(cells, k) {
      assert Rc(before, k) == held[k] + SlotCount(before, k);
      assert Rc(cells, k) == held[k] + SlotCount(cells, k);
      var o := Owner(cells, k);
      assert Holds(cells, o, k);
      if o < |before| {
        NoDangling(before, held, o, k);
      } else {
        Ownerless(before, cells, held, o);
      }
    }
  }

  /** A parsed value can be taken down again without trace. */
  lemma {:induction false} TakenDown(before: seq<Cell>, cells: seq<Cell>, held: multiset<Ref>, r: Ref)
    requires Sound(before, held) && Tidy(before, cells) && Sound(cells, held + multiset{r}) && r >= |before|
    ensures var after := Release(cells, [r]);
            Tidy(before, after) && Sound(after, held) && DeadFrom(after, |before|)
  {
    hide Conserved, Release, Settled, WellTyped, Upward;
    assert multiset([r]) == multiset{r};
    ReleaseSound(cells, held, [r]);
    TidyRelease(before, cells, [r]);
    AllGone(before, Release(cells, [r]), held);
  }

  // ---------------------------------------------------------------- values stay what they are

  /** Above `s`, what is in use before and after has not been written to. */
  ghost predicate KeptAbove(before: seq<Cell>, after: seq<Cell>, s: nat)
  {
    forall x: Ref | x > s && InUse(before, x) && InUse(after, x) :: after[x].body == before[x].body
  }

  lemma {:induction false} DenotesKept(before: seq<Cell>, after: seq<Cell>, held: multiset<Ref>, s: nat, r: Ref, v: Value)
    requires Denotes(before, r, v) && r > s && InUse(after, r)
    requires KeptAbove(before, after, s) && Upward(after, s) && Conserved(after, held)
    ensures Denotes(after, r, v)
    decreases v, 1
  {
    hide Conserved;
    match v {
      case Array(items) =>
        var refs := after[r].body.items;
        forall k | 0 <= k < |refs|
          ensures InUse(after, refs[k]) && refs[k] > s
        {
          assert Holds(after, r, refs[k]);
          NoDangling(after, held, r, refs[k]);
        }
        ItemsKept(before, after, held, s, refs, items);
      case Struct(ms) =>
        var slots := after[r].body.slots;
        SlotsInUse(after, held, r, s);
        MembersKept(before, after, held, s, slots, ms);
      case _ =>
    }
  }

  lemma {:induction false} SlotsInUse(after: seq<Cell>, held: multiset<Ref>, r: Ref, s: nat)
    requires HasTable(after, r) && r >= s && Upward(after, s) && Conserved(after, held)
    ensures var slots := after[r].body.slots;
            forall k | 0 <= k < |slots| ::
              InUse(after, slots[k].key) && slots[k].key > r && InUse(after, slots[k].value) && slots[k].value > r
  {
    hide Conserved, SlotRefs;
    var slots := after[r].body.slots;
    forall k | 0 <= k < |slots|
      ensures InUse(after, slots[k].key) && slots[k].key > r && InUse(after, slots[k].value) && slots[k].value > r
    {
      SlotRefsHas(slots, k);
      assert Holds(after, r, slots[k].key) && Holds(after, r, slots[k].value);
      NoDangling(after, held, r, slots[k].key);
      NoDangling(after, held, r, slots[k].value);
    }
  }

  lemma {:induction false} ItemsKept(before: seq<Cell>, after: seq<Cell>, held: multiset<Ref>, s: nat, refs: seq<Ref>, items: seq<Value>)
    requires DenoteItems(before, refs, items)
    requires forall k | 0 <= k < |refs| :: InUse(after, refs[k]) && refs[k] > s
    requires KeptAbove(before, after, s) && Upward(after, s) && Conserved(after, held)
    ensures DenoteItems(after, refs, items)
    decreases items, 0
  {
    hide Conserved, Denotes, KeptAbove, Upward;
    forall k | 0 <= k < |items|
      ensures Denotes(after, refs[k], items[k])
    {
      DenotesKept(before, after, held, s, refs[k], items[k]);
    }
  }

  lemma {:induction false} MembersKept(before: seq<Cell>, after: seq<Cell>, held: multiset<Ref>, s: nat, slots: seq<Slot>, ms: seq<Member>)
    requires DenoteMembers(before, slots, ms)
    requires forall k | 0 <= k < |slots| ::
               InUse(after, slots[k].key) && slots[k].key > s && InUse(after, slots[k].value) && slots[k].value > s
    requires KeptAbove(before, after, s) && Upward(after, s) && Conserved(after, held)
    ensures DenoteMembers(after, slots, ms)
    decreases ms, 0
  {
    hide Conserved, Denotes, Upward;
    forall k | 0 <= k < |ms|
      ensures Denotes(after, slots[k].value, ms[k].value)
    {
      DenotesKept(before, after, held, s, slots[k].value, ms[k].value);
    }
  }

  // ---------------------------------------------------------------- one item, one member

  lemma {:induction false} UpwardFrom(before: seq<Cell>, cells: seq<Cell>, s: nat)
    requires Tidy(before, cells) && s >= |before|
    ensures Upward(cells, s)
  {
  }

  lemma {:induction false} ReleaseShared(cells: seq<Cell>, r: Ref)
    requires InUse(cells, r) && cells[r].rc > 1
    ensures Release(cells, [r]) == cells[r := Live(cells[r].rc - 1, cells[r].body)]
  {
    assert [r][1..] == [];
    assert Release(cells[r := Live(cells[r].rc - 1, cells[r].body)], []) == cells[r := Live(cells[r].rc - 1, cells[r].body)];
  }

  lemma {:induction false} ReleaseLowers(cells: seq<Cell>, r: Ref)
    requires InUse(Release(cells, [r]), r)
    ensures InUse(cells, r) && cells[r].rc == Release(cells, [r])[r].rc + 1
  {
    ReleaseSurvivors(cells, [r], r);
    if cells[r].rc > 1 {
      ReleaseShared(cells, r);
    } else {
      ReleaseSurvivors(cells[r := Dead], Refs(cells[r].body) + [r][1..], r);
    }
  }

  /** What was parsed earlier still stands after more has been parsed. */
  lemma {:induction false} ItemsGrow(before: seq<Cell>, cells: seq<Cell>, more: seq<Cell>, held: multiset<Ref>, a: Ref, items: seq<Ref>, vs: seq<Value>)
    requires Tidy(before, cells) && Tidy(cells, more) && |before| <= a < |cells| && Conserved(more, held)
    requires InUse(cells, a) && cells[a].body == BArray(items) && DenoteItems(cells, items, vs)
    ensures Tidy(before, more) && more[a] == cells[a] && DenoteItems(more, items, vs)
  {
    hide Conserved, Denotes;
    TidyThen(before, cells, more);
    UpwardFrom(before, more, a);
    forall k | 0 <= k < |items|
      ensures InUse(more, items[k]) && items[k] > a
    {
      assert Holds(more, a, items[k]);
      NoDangling(more, held, a, items[k]);
    }
    ItemsKept(cells, more, held, a, items, vs);
  }

  /** Appending an item just parsed and giving up one's own reference to it. */
  lemma {:induction false} ItemAdded(before: seq<Cell>, cells: seq<Cell>, held: multiset<Ref>, a: Ref, items: seq<Ref>, vs: seq<Value>, item: Ref, v: Value)
    requires Tidy(before, cells) && |before| <= a < item && Sound(cells, held + multiset{a} + multiset{item})
    requires InUse(cells, a) && cells[a].body == BArray(items) && DenoteItems(cells, items, vs)
    requires Denotes(cells, item, v)
    ensures InUse(cells, item)
    ensures var after := Release(Appended(cells, a, item), [item]);
            && Tidy(before, after) && Sound(after, held + multiset{a})
            && InUse(after, a) && after[a].body == BArray(items + [item]) && DenoteItems(after, items + [item], vs + [v])
  {
    hide Conserved, Settled, WellTyped, Release, Upward;
    var body := BArray(items + [item]);
    var after := Rebody(cells, a, body);
    assert cells[item].rc == 1 by { HeldInUse(cells, held + multiset{a} + multiset{item}, item); }
    ReleaseShared(Appended(cells, a, item), item);
    assert Release(Appended(cells, a, item), [item]) == after;
    AppendedSound(cells, held + multiset{a} + multiset{item}, a, item);
    assert multiset([item]) == multiset{item};
    ReleaseSound(Appended(cells, a, item), held + multiset{a}, [item]);
    UpwardFrom(before, cells, a);
    forall r: Ref | r in Refs(body)
      ensures r > a
    {
      if r != item {
        assert Holds(cells, a, r);
        Higher(cells, a, a, r);
      }
    }
    TidyStore(before, cells, a, body);
    UpwardFrom(before, after, a);
    forall k | 0 <= k < |items + [item]|
      ensures InUse(after, (items + [item])[k]) && (items + [item])[k] > a
    {
      assert Holds(after, a, (items + [item])[k]);
      NoDangling(after, held + multiset{a}, a, (items + [item])[k]);
    }
    assert DenoteItems(cells, items + [item], vs + [v]);
    ItemsKept(cells, after, held + multiset{a}, a, items + [item], vs + [v]);
  }

  lemma {:induction false} Higher(cells: seq<Cell>, n: nat, o: Ref, r: Ref)
    requires Upward(cells, n) && Holds(cells, o, r) && o >= n
    ensures r > o
  {
  }

  lemma {:induction false} MembersGrow(before: seq<Cell>, cells: seq<Cell>, more: seq<Cell>, held: multiset<Ref>, s: Ref, slots: seq<Slot>, ms: seq<Member>)
    requires Tidy(before, cells) && Tidy(cells, more) && |before| <= s < |cells| && Conserved(more, held)
    requires InUse(cells, s) && cells[s].body == BStruct(slots) && DenoteMembers(cells, slots, ms)
    ensures Tidy(before, more) && more[s] == cells[s] && DenoteMembers(more, slots, ms)
  {
    hide Conserved, Denotes;
    TidyThen(before, cells, more);
    UpwardFrom(before, more, s);
    SlotsInUse(more, held, s, s);
    MembersKept(cells, more, held, s, slots, ms);
  }

  lemma {:induction false} SameIndex(cells: seq<Cell>, slots: seq<Slot>, ms: seq<Member>, key: seq<byte>)
    requires DenoteMembers(cells, slots, ms)
    ensures EntryIndex(Entries(cells, slots), key) == KeyIndex(ms, key)
  {
    hide EntryIndex, Denotes;
    var es := Entries(cells, slots);
    assert forall k | 0 <= k < |ms| :: es[k].key == ms[k].key;
    var i := EntryIndex(es, key);
    if i < |es| {
      KeyIndexIs(ms, key, i);
    } else {
      forall k | 0 <= k < |ms|
        ensures ms[k].key != key
      {
        assert es[k].key != key;
      }
    }
  }

  /** The slots a struct has once a member is set. */
  function SlotsSet(cells: seq<Cell>, slots: seq<Slot>, key: Ref, value: Ref): seq<Slot>
  {
    var i := EntryIndex(Entries(cells, slots), KeyText(cells, key));
    if i < |slots| then slots[i := slots[i].(value := value)]
    else slots + [Slot(Hash(KeyText(cells, key)), key, value)]
  }

  lemma {:induction false} SlotsSetDenote(cells: seq<Cell>, slots: seq<Slot>, ms: seq<Member>, key: Ref, value: Ref, text: seq<byte>, v: Value)
    requires DenoteMembers(cells, slots, ms) && InUse(cells, key) && cells[key].body == BStr(text) && Denotes(cells, value, v)
    ensures DenoteMembers(cells, SlotsSet(cells, slots, key, value), SetMember(ms, text, v))
  {
    hide EntryIndex, KeyIndex, Denotes, Hash, Entries;
    SameIndex(cells, slots, ms, text);
    var i := KeyIndex(ms, text);
    var slots', ms' := SlotsSet(cells, slots, key, value), SetMember(ms, text, v);
    assert KeyText(cells, key) == text && |slots'| == |ms'|;
    forall k | 0 <= k < |ms'|
      ensures InUse(cells, slots'[k].key) && cells[slots'[k].key].body == BStr(ms'[k].key)
      ensures Denotes(cells, slots'[k].value, ms'[k].value)
    {
      if k != i {
        assert slots'[k] == slots[k] && ms'[k] == ms[k];
      }
    }
  }

  lemma {:induction false} SlotsSetRefs(cells: seq<Cell>, slots: seq<Slot>, key: Ref, value: Ref, r: Ref)
    requires r in SlotRefs(SlotsSet(cells, slots, key, value))
    ensures r in SlotRefs(slots) || r == key || r == value
  {
    hide EntryIndex, Hash, Entries, SlotRefs;
    var i := EntryIndex(Entries(cells, slots), KeyText(cells, key));
    if i < |slots| {
      ReplacedRefs(slots, i, value, r);
    } else {
      AddedRefs(slots, Slot(Hash(KeyText(cells, key)), key, value), r);
    }
  }

  /** The state once a member has been set and the references to key and value given up. */
  function MemberDone(cells: seq<Cell>, s: Ref, key: Ref, value: Ref): seq<Cell>
    requires HasTable(cells, s) && InUse(cells, key) && InUse(cells, value)
  {
    Release(Release(MemberSet(cells, s, key, value), [key]), [value])
  }

  ghost predicate JustParsed(before: seq<Cell>, cells: seq<Cell>, s: Ref, key: Ref, value: Ref)
  {
    && Tidy(before, cells) && |before| <= s < key && s < value && key != value
    && HasTable(cells, s) && InUse(cells, key) && InUse(cells, value) && cells[key].body.BStr?
  }

  lemma {:induction false} MemberDoneSound(cells: seq<Cell>, held: multiset<Ref>, s: Ref, key: Ref, value: Ref)
    requires HasTable(cells, s) && InUse(cells, key) && IsString(cells, key) && InUse(cells, value)
    requires Sound(cells, held + multiset{s} + multiset{key} + multiset{value})
    ensures Sound(MemberDone(cells, s, key, value), held + multiset{s})
  {
    hide Sound, Release, MemberSet;
    var all := held + multiset{s} + multiset{key} + multiset{value};
    MemberSetSound(cells, all, s, key, value);
    assert multiset([key]) == multiset{key} && multiset([value]) == multiset{value};
    assert all == held + multiset{s} + multiset{value} + multiset{key};
    ReleaseSound(MemberSet(cells, s, key, value), held + multiset{s} + multiset{value}, [key]);
    ReleaseSound(Release(MemberSet(cells, s, key, value), [key]), held + multiset{s}, [value]);
  }

  /** A new member leaves key and value with the slot's reference only. */
  lemma {:induction false} AddedDone(before: seq<Cell>, cells: seq<Cell>, s: Ref, key: Ref, value: Ref)
    requires JustParsed(before, cells, s, key, value)
    requires EntryIndex(Entries(cells, cells[s].body.slots), KeyText(cells, key)) == |cells[s].body.slots|
    ensures MemberDone(cells, s, key, value)
         == Rebody(cells, s, BStruct(SlotsSet(cells, cells[s].body.slots, key, value)))
  {
    hide Release, EntryIndex, Entries, Hash, Upward;
    var added := Added(cells, s, key, value);
    assert cells[key].rc == 1 && cells[value].rc == 1;
    ReleaseShared(added, key);
    ReleaseShared(Release(added, [key]), value);
  }

  lemma {:induction false} AddedTidy(before: seq<Cell>, cells: seq<Cell>, s: Ref, key: Ref, value: Ref)
    requires JustParsed(before, cells, s, key, value)
    requires EntryIndex(Entries(cells, cells[s].body.slots), KeyText(cells, key)) == |cells[s].body.slots|
    ensures var after := MemberDone(cells, s, key, value);
            && Tidy(before, after) && KeptAbove(cells, after, s)
            && InUse(after, s) && after[s].body == BStruct(SlotsSet(cells, cells[s].body.slots, key, value))
  {
    hide MemberDone, SlotsSet, Upward, SlotRefs;
    var slots' := SlotsSet(cells, cells[s].body.slots, key, value);
    AddedDone(before, cells, s, key, value);
    SetUpward(before, cells, s, key, value);
    TidyStore(before, cells, s, BStruct(slots'));
  }

  lemma {:induction false} SetUpward(before: seq<Cell>, cells: seq<Cell>, s: Ref, key: Ref, value: Ref)
    requires JustParsed(before, cells, s, key, value)
    ensures forall r: Ref | r in SlotRefs(SlotsSet(cells, cells[s].body.slots, key, value)) :: r > s
  {
    hide SlotsSet, SlotRefs;
    var slots := cells[s].body.slots;
    forall r: Ref | r in SlotRefs(SlotsSet(cells, slots, key, value))
      ensures r > s
    {
      SlotsSetRefs(cells, slots, key, value, r);
      if r in SlotRefs(slots) {
        assert Holds(cells, s, r);
      }
    }
  }

  /** Replacing a member frees the value it had, and the key that was not needed. */
  lemma {:induction false} ReplacedTidy(before: seq<Cell>, cells: seq<Cell>, held: multiset<Ref>, s: Ref, key: Ref, value: Ref)
    requires JustParsed(before, cells, s, key, value)
    requires EntryIndex(Entries(cells, cells[s].body.slots), KeyText(cells, key)) < |cells[s].body.slots|
    requires Sound(MemberDone(cells, s, key, value), held + multiset{s})
    ensures var after := MemberDone(cells, s, key, value);
            && Tidy(before, after) && KeptAbove(cells, after, s)
            && InUse(after, s) && after[s].body == BStruct(SlotsSet(cells, cells[s].body.slots, key, value))
  {
    hide Release, EntryIndex, Entries, SlotRefs, Conserved, Settled, WellTyped, Upward;
    var slots := cells[s].body.slots;
    var i := EntryIndex(Entries(cells, slots), KeyText(cells, key));
    var was := slots[i].value;
    var mid := Rebody(Bump(cells, value), s, BStruct(SlotsSet(cells, slots, key, value)));
    var after := MemberDone(cells, s, key, value);
    ReleaseConcat(mid, [was], [key]);
    ReleaseConcat(mid, [was] + [key], [value]);
    var todo := [was] + [key] + [value];
    assert after == Release(mid, todo);
    SlotsSetValue(cells, slots, key, value, i);
    MidUpward(before, cells, s, key, value, i);
    ReleaseLocal(mid, todo, |before|);
    ReleaseKeeps(mid, todo);
    UpwardKept(mid, after, |before|);
    HeldInUse(after, held + multiset{s}, s);
    assert after[s].body == mid[s].body;
    SlotsInUse1(after, held + multiset{s}, s, i);
    ReleaseLowers(Release(mid, [was] + [key]), value);
    ReleaseSurvivors(mid, [was] + [key], value);
    forall k | |before| <= k < |after| && after[k].Live?
      ensures after[k].rc == 1
    {
      ReleaseSurvivors(mid, todo, k);
    }
  }

  lemma {:induction false} SlotsSetValue(cells: seq<Cell>, slots: seq<Slot>, key: Ref, value: Ref, i: nat)
    requires i == EntryIndex(Entries(cells, slots), KeyText(cells, key)) && i < |slots|
    ensures var slots' := SlotsSet(cells, slots, key, value);
            |slots'| == |slots| && slots'[i].value == value
  {
  }

  lemma {:induction false} SlotsInUse1(after: seq<Cell>, held: multiset<Ref>, s: Ref, i: nat)
    requires HasTable(after, s) && i < |after[s].body.slots| && Conserved(after, held)
    ensures InUse(after, after[s].body.slots[i].value)
  {
    hide SlotRefs, Conserved;
    SlotRefsHas(after[s].body.slots, i);
    NoDangling(after, held, s, after[s].body.slots[i].value);
  }

  lemma {:induction false} MidUpward(before: seq<Cell>, cells: seq<Cell>, s: Ref, key: Ref, value: Ref, i: nat)
    requires JustParsed(before, cells, s, key, value) && i < |cells[s].body.slots|
    ensures cells[s].body.slots[i].value > s
    ensures Upward(Rebody(Bump(cells, value), s, BStruct(SlotsSet(cells, cells[s].body.slots, key, value))), |before|)
  {
    hide SlotsSet, SlotRefs;
    var mid := Rebody(Bump(cells, value), s, BStruct(SlotsSet(cells, cells[s].body.slots, key, value)));
    SlotRefsHas(cells[s].body.slots, i);
    assert Holds(cells, s, cells[s].body.slots[i].value);
    SetUpward(before, cells, s, key, value);
    forall o: Ref, r: Ref | Holds(mid, o, r) && o >= |before|
      ensures r > o
    {
      if o != s {
        assert Holds(cells, o, r);
      }
    }
  }

  /** Setting a member just parsed and giving up one's own references to key and value. */
  lemma {:induction false} MemberAdded(before: seq<Cell>, cells: seq<Cell>, held: multiset<Ref>, s: Ref, ms: seq<Member>, key: Ref, text: seq<byte>, value: Ref, v: Value)
    requires JustParsed(before, cells, s, key, value)
    requires Sound(cells, held + multiset{s} + multiset{key} + multiset{value})
    requires DenoteMembers(cells, cells[s].body.slots, ms) && cells[key].body == BStr(text) && Denotes(cells, value, v)
    ensures var after := MemberDone(cells, s, key, value);
            && Tidy(before, after) && Sound(after, held + multiset{s})
            && HasTable(after, s) && DenoteMembers(after, after[s].body.slots, SetMember(ms, text, v))
  {
    hide MemberDone, SlotsSet, Denotes, DenoteMembers, Conserved, Settled, WellTyped, Upward, EntryIndex, Entries, SetMember;
    var slots := cells[s].body.slots;
    var after := MemberDone(cells, s, key, value);
    MemberDoneSound(cells, held, s, key, value);
    if EntryIndex(Entries(cells, slots), KeyText(cells, key)) < |slots| {
      ReplacedTidy(before, cells, held, s, key, value);
    } else {
      AddedTidy(before, cells, s, key, value);
    }
    SlotsSetDenote(cells, slots, ms, key, value, text, v);
    UpwardFrom(before, after, s);
    SlotsInUse(after, held + multiset{s}, s, s);
    MembersKept(cells, after, held + multiset{s}, s, after[s].body.slots, SetMember(ms, text, v));
  }

  // ---------------------------------------------------------------- convert_value

  /** What every conversion promises: on success the value, held once, and nothing else alive that
      was not before; on a fault, nothing alive that was not before. */
  ghost predicate Converted(before: seq<Cell>, after: seq<Cell>, held: multiset<Ref>, r: Result<Ref>, spec: Result<Value>)
  {
    && Tidy(before, after)
    && match r
       case Ok(ref) =>
         && spec.Ok? && ref >= |before| && Sound(after, held + multiset{ref}) && Denotes(after, ref, spec.value)
       case Fault(code) =>
         && spec == Fault(code) && Sound(after, held) && DeadFrom(after, |before|)
  }

  lemma {:induction false} FaultAtOnce(cells: seq<Cell>, held: multiset<Ref>, code: int)
    requires Sound(cells, held)
    ensures Converted(cells, cells, held, Fault(code), Fault(code))
  {
    hide Conserved, Settled, WellTyped;
  }

  /** Each scalar is a value of its own. */
  method NewScalar(m: Memory, v: Value, ghost held: multiset<Ref>) returns (r: Ref)
    requires Sound(m.cells, held) && !v.Array? && !v.Struct?
    modifies m
    ensures m.cells == old(m.cells) + [Live(1, Scalar(v))]
    ensures Converted(old(m.cells), m.cells, held, Ok(r), Ok(v))
  {
    hide Conserved, Settled, WellTyped;
    FaultAtOnce(m.cells, held, 0);
    TidyNew(m.cells, m.cells, Scalar(v));
    r := m.New(Scalar(v), held);
  }

  /** make_string */
  method MakeStringValue(m: Memory, cdata: seq<byte>, ghost held: multiset<Ref>) returns (r: Result<Ref>)
    requires Sound(m.cells, held)
    modifies m
    ensures Converted(old(m.cells), m.cells, held, r, MakeString(cdata))
  {
    hide Sound, Utf8.Legal, Utf8.CodePoints;
    var ok, _ := Utf8.DecodeUtf8(cdata, null);
    if !ok {
      FaultAtOnce(m.cells, held, INVALID_UTF8_ERROR);
      return Fault(INVALID_UTF8_ERROR);
    }
    var s := NewScalar(m, Str(cdata), held);
    return Ok(s);
  }

  /** The elements without children, by name. */
  method ConvertLeaf(m: Memory, name: string, cdata: seq<byte>, ghost held: multiset<Ref>) returns (r: Result<Ref>)
    requires Sound(m.cells, held)
    modifies m
    ensures Converted(old(m.cells), m.cells, held, r, ConvertScalar(name, cdata))
  {
    hide Sound, Converted, Atoi, CString, Base64.Decoded, MakeString;
    ghost var before := m.cells;
    if name == "i4" || name == "int" {
      match Atoi(CString(cdata), INT32_MIN, INT32_MAX) {
        case Ok(i) =>
          var s := NewScalar(m, Int(i), held);
          return Ok(s);
        case Fault(code) =>
          FaultAtOnce(before, held, code);
          return Fault(code);
      }
    } else if name == "string" {
      r := MakeStringValue(m, cdata, held);
    } else if name == "boolean" {
      match Atoi(CString(cdata), 0, 1) {
        case Ok(i) =>
          var s := NewScalar(m, Bool(i == 1), held);
          return Ok(s);
        case Fault(code) =>
          FaultAtOnce(before, held, code);
          return Fault(code);
      }
    } else if name == "dateTime.iso8601" {
      var s := NewScalar(m, DateTime(CString(cdata)), held);
      return Ok(s);
    } else if name == "nil" {
      var s := NewScalar(m, Nil, held);
      return Ok(s);
    } else if name == "base64" {
      var decoded := Base64.Decode(cdata);
      match decoded {
        case Ok(data) =>
          var s := NewScalar(m, Binary(data), held);
          return Ok(s);
        case Fault(code) =>
          FaultAtOnce(before, held, code);
          return Fault(code);
      }
    } else {
      FaultAtOnce(before, held, PARSE_ERROR);
      return Fault(PARSE_ERROR);
    }
  }

  /** The cleanup of convert_array and convert_struct on a fault. */
  method GiveUp(m: Memory, r: Ref, code: int, ghost before: seq<Cell>, ghost held: multiset<Ref>)
    requires Sound(before, held) && Tidy(before, m.cells) && Sound(m.cells, held + multiset{r}) && r >= |before|
    modifies m
    ensures Converted(before, m.cells, held, Fault(code), Fault(code))
  {
    hide Conserved, Settled, WellTyped, Upward, Release;
    TakenDown(before, m.cells, held, r);
    m.Decref(r, held);
  }

  function Prefixed(vs: seq<Value>, rest: Result<seq<Value>>): Result<seq<Value>>
  {
    match rest
    case Ok(ws) => Ok(vs + ws)
    case Fault(code) => Fault(code)
  }

  /** What ConvertValue makes of an array element. */
  function ArrayOf(max: nat, elem: XmlTree): Result<Value>
    requires max >= 1
  {
    if |elem.children| != 1 then Fault(PARSE_ERROR)
    else if elem.children[0].name != "data" then Fault(PARSE_ERROR)
    else match ConvertItems(max, elem.children[0].children)
      case Ok(items) => Ok(Array(items))
      case Fault(code) => Fault(code)
  }

  /** What ConvertValue makes of a struct element. */
  function StructOf(max: nat, elem: XmlTree): Result<Value>
    requires max >= 1
  {
    match ConvertMembers(max, elem.children, [])
    case Ok(ms) => Ok(Struct(ms))
    case Fault(code) => Fault(code)
  }

  lemma {:induction false} ItemsStep(max: nat, children: seq<XmlTree>, vs: seq<Value>, i: nat)
    requires max >= 1 && i < |children|
    ensures Prefixed(vs, ConvertItems(max, children[i..]))
         == match ConvertValue(max - 1, children[i])
            case Fault(code) => Fault(code)
            case Ok(v) => Prefixed(vs + [v], ConvertItems(max, children[i + 1..]))
  {
    hide ConvertValue;
    assert children[i..][0] == children[i] && children[i..][1..] == children[i + 1..];
    match ConvertItems(max, children[i + 1..]) {
      case Ok(ws) =>
        match ConvertValue(max - 1, children[i]) {
          case Ok(v) => assert vs + ([v] + ws) == vs + [v] + ws;
          case Fault(_) =>
        }
      case Fault(_) =>
    }
  }

  /** The array under construction, between two items. */
  ghost predicate ArrayGrowing(before: seq<Cell>, cells: seq<Cell>, held: multiset<Ref>, a: Ref, items: seq<Ref>, vs: seq<Value>)
  {
    && Tidy(before, cells) && a == |before| && Sound(cells, held + multiset{a})
    && InUse(cells, a) && cells[a].body == BArray(items) && DenoteItems(cells, items, vs)
  }

  lemma {:induction false} ArrayBegun(before: seq<Cell>, held: multiset<Ref>)
    requires Sound(before, held)
    ensures ArrayGrowing(before, before + [Live(1, BArray([]))], held, |before|, [], [])
  {
    hide Conserved, Settled, WellTyped;
    FaultAtOnce(before, held, 0);
    TidyNew(before, before, BArray([]));
    NewSound(before, held, BArray([]));
  }

  lemma {:induction false} ArrayConverted(before: seq<Cell>, cells: seq<Cell>, held: multiset<Ref>, a: Ref, items: seq<Ref>, vs: seq<Value>)
    requires ArrayGrowing(before, cells, held, a, items, vs)
    ensures Converted(before, cells, held, Ok(a), Ok(Array(vs)))
  {
    hide Tidy, Sound;
  }

  /** The next item faulted: the array still stands, with nothing else alive. */
  lemma {:induction false} ItemFaulted(before: seq<Cell>, cells: seq<Cell>, more: seq<Cell>, held: multiset<Ref>, a: Ref, items: seq<Ref>, vs: seq<Value>, code: int, spec: Result<Value>)
    requires ArrayGrowing(before, cells, held, a, items, vs)
    requires Converted(cells, more, held + multiset{a}, Fault(code), spec)
    ensures spec == Fault(code) && Tidy(before, more) && Sound(more, held + multiset{a})
  {
    hide Sound;
    TidyThen(before, cells, more);
  }

  lemma {:induction false} ItemConverted(before: seq<Cell>, cells: seq<Cell>, more: seq<Cell>, held: multiset<Ref>, a: Ref, items: seq<Ref>, vs: seq<Value>, item: Ref, spec: Result<Value>)
    requires ArrayGrowing(before, cells, held, a, items, vs)
    requires Converted(cells, more, held + multiset{a}, Ok(item), spec)
    ensures spec.Ok? && InUse(more, a) && more[a].body == BArray(items) && InUse(more, item)
    ensures ArrayGrowing(before, Release(Appended(more, a, item), [item]), held, a, items + [item], vs + [spec.value])
  {
    hide Conserved, Settled, WellTyped, Denotes, DenoteItems, Upward, Release;
    ItemsGrow(before, cells, more, held + multiset{a} + multiset{item}, a, items, vs);
    ItemAdded(before, more, held, a, items, vs, item, spec.value);
  }

  /** convert_array */
  method ConvertArray(m: Memory, max: nat, elem: XmlTree, ghost held: multiset<Ref>) returns (r: Result<Ref>)
    requires Sound(m.cells, held) && max >= 1
    modifies m
    ensures Converted(old(m.cells), m.cells, held, r, ArrayOf(max, elem))
    decreases elem, 0
  {
    hide Converted, Sound, ConvertItems, ConvertValue, Refs, Tidy, DenoteItems, Release, Appended, Prefixed, ArrayGrowing;
    ghost var before := m.cells;
    ArrayBegun(before, held);
    assert Refs(BArray([])) == [] by { NoItems(); }
    var a := m.New(BArray([]), held);
    assert Tidy(before, m.cells) by { GrowingTidy(before, m.cells, held, a, [], []); }
    if |elem.children| != 1 {
      GiveUp(m, a, PARSE_ERROR, before, held);
      return Fault(PARSE_ERROR);
    }
    var data := elem.children[0];
    if data.name != "data" {
      GiveUp(m, a, PARSE_ERROR, before, held);
      return Fault(PARSE_ERROR);
    }
    var values := data.children;
    ghost var items: seq<Ref> := [];
    ghost var vs: seq<Value> := [];
    var i := 0;
    assert values[0..] == values;
    assert ConvertItems(max, values) == Prefixed([], ConvertItems(max, values)) by { PrefixedNone(ConvertItems(max, values)); }
    while i < |values|
      invariant 0 <= i <= |values|
      invariant ArrayGrowing(before, m.cells, held, a, items, vs)
      invariant ConvertItems(max, values) == Prefixed(vs, ConvertItems(max, values[i..]))
    {
      ghost var was := m.cells;
      GrowingTidy(before, m.cells, held, a, items, vs);
      ItemsStep(max, values, vs, i);
      var item := ConvertTree(m, max - 1, values[i], held + multiset{a});
      match item {
        case Fault(code) =>
          ItemFaulted(before, was, m.cells, held, a, items, vs, code, ConvertValue(max - 1, values[i]));
          GiveUp(m, a, code, before, held);
          return Fault(code);
        case Ok(ref) =>
          ItemConverted(before, was, m.cells, held, a, items, vs, ref, ConvertValue(max - 1, values[i]));
          ConvertedSound(was, m.cells, held + multiset{a}, ref, ConvertValue(max - 1, values[i]));
          var fault := m.ArrayAppend(a, ref, held + multiset{a} + multiset{ref});
          assert fault.None?;
          SoundConserves(m.cells, held + multiset{a} + multiset{ref});
          m.Decref(ref, held + multiset{a});
          items := items + [ref];
          vs := vs + [ConvertValue(max - 1, values[i]).value];
      }
      i := i + 1;
    }
    assert values[i..] == [];
    assert ConvertItems(max, values) == Ok(vs) by { ItemsDone(max, vs); }
    ArrayConverted(before, m.cells, held, a, items, vs);
    return Ok(a);
  }

  lemma {:induction false} NoItems()
    ensures Refs(BArray([])) == []
  {
  }

  lemma {:induction false} PrefixedNone(rest: Result<seq<Value>>)
    ensures Prefixed([], rest) == rest
  {
    if rest.Ok? {
      assert [] + rest.value == rest.value;
    }
  }

  lemma {:induction false} ItemsDone(max: nat, vs: seq<Value>)
    requires max >= 1
    ensures Prefixed(vs, ConvertItems(max, [])) == Ok(vs)
  {
    assert vs + [] == vs;
  }

  lemma {:induction false} GrowingTidy(before: seq<Cell>, cells: seq<Cell>, held: multiset<Ref>, a: Ref, items: seq<Ref>, vs: seq<Value>)
    requires ArrayGrowing(before, cells, held, a, items, vs)
    ensures Tidy(before, cells) && a == |before| && Sound(cells, held + multiset{a})
  {
  }

  lemma {:induction false} ConvertedSound(before: seq<Cell>, after: seq<Cell>, held: multiset<Ref>, ref: Ref, spec: Result<Value>)
    requires Converted(before, after, held, Ok(ref), spec)
    ensures Sound(after, held + multiset{ref})
  {
    hide Sound;
  }

  lemma {:induction false} SoundConserves(cells: seq<Cell>, held: multiset<Ref>)
    requires Sound(cells, held)
    ensures Conserved(cells, held)
  {
  }

  /** The struct under construction, while the references `all` are held. */
  ghost predicate Standing(before: seq<Cell>, cells: seq<Cell>, all: multiset<Ref>, s: Ref, ms: seq<Member>)
  {
    && Tidy(before, cells) && s == |before| && Sound(cells, all)
    && HasTable(cells, s) && DenoteMembers(cells, cells[s].body.slots, ms)
  }

  lemma {:induction false} StructBegun(before: seq<Cell>, held: multiset<Ref>)
    requires Sound(before, held)
    ensures Standing(before, before + [Live(1, BStruct([]))], held + multiset{|before|}, |before|, [])
  {
    hide Conserved, Settled, WellTyped;
    FaultAtOnce(before, held, 0);
    TidyNew(before, before, BStruct([]));
    NewSound(before, held, BStruct([]));
  }

  lemma {:induction false} StandingTidy(before: seq<Cell>, cells: seq<Cell>, all: multiset<Ref>, s: Ref, ms: seq<Member>)
    requires Standing(before, cells, all, s, ms)
    ensures Tidy(before, cells) && s == |before| && Sound(cells, all)
  {
  }

  lemma {:induction false} StructConverted(before: seq<Cell>, cells: seq<Cell>, held: multiset<Ref>, s: Ref, ms: seq<Member>)
    requires Standing(before, cells, held + multiset{s}, s, ms)
    ensures Converted(before, cells, held, Ok(s), Ok(Struct(ms)))
  {
    hide Tidy, Sound;
  }

  /** Something more was parsed: the struct still stands. */
  lemma {:induction false} StandsAfter(before: seq<Cell>, cells: seq<Cell>, more: seq<Cell>, all: multiset<Ref>, s: Ref, ms: seq<Member>, ref: Ref, spec: Result<Value>)
    requires Standing(before, cells, all, s, ms) && Converted(cells, more, all, Ok(ref), spec)
    ensures Standing(before, more, all + multiset{ref}, s, ms)
    ensures s < |cells| <= ref && cells <= more && spec.Ok? && Denotes(more, ref, spec.value)
  {
    hide Conserved, Settled, WellTyped, Denotes, DenoteMembers, Upward;
    MembersGrow(before, cells, more, all + multiset{ref}, s, cells[s].body.slots, ms);
  }

  lemma {:induction false} FaultedAfter(before: seq<Cell>, cells: seq<Cell>, more: seq<Cell>, all: multiset<Ref>, s: Ref, ms: seq<Member>, code: int, spec: Result<Value>)
    requires Standing(before, cells, all, s, ms) && Converted(cells, more, all, Fault(code), spec)
    ensures spec == Fault(code) && Tidy(before, more) && Sound(more, all)
  {
    hide Sound;
    TidyThen(before, cells, more);
  }

  /** get_child_by_name */
  method ChildByName(children: seq<XmlTree>, name: string) returns (i: nat)
    ensures i == ChildNamed(children, name)
  {
    i := 0;
    while i < |children|
      invariant i <= |children|
      invariant ChildNamed(children, name) == i + ChildNamed(children[i..], name)
    {
      if children[i].name == name {
        return;
      }
      assert children[i..][1..] == children[i + 1..];
      i := i + 1;
    }
  }

  /** Giving up the reference to a key in the middle of a member. */
  method DropKey(m: Memory, key: Ref, ghost before: seq<Cell>, ghost held: multiset<Ref>)
    requires Tidy(before, m.cells) && Sound(m.cells, held + multiset{key}) && key >= |before|
    modifies m
    ensures Tidy(before, m.cells) && Sound(m.cells, held)
  {
    hide Conserved, Settled, WellTyped, Upward, Release;
    TidyRelease(before, m.cells, [key]);
    assert multiset([key]) == multiset{key};
    ReleaseSound(m.cells, held, [key]);
    m.Decref(key, held);
  }

  lemma {:induction false} ReadyToSet(before: seq<Cell>, cells: seq<Cell>, all: multiset<Ref>, s: Ref, ms: seq<Member>, key: Ref, text: seq<byte>, value: Ref, v: Value)
    requires Standing(before, cells, all + multiset{s} + multiset{key} + multiset{value}, s, ms)
    requires s < key < value < |cells| && cells[key].Live? && cells[key].body == BStr(text) && Denotes(cells, value, v)
    ensures JustParsed(before, cells, s, key, value) && IsString(cells, key)
    ensures Standing(before, MemberDone(cells, s, key, value), all + multiset{s}, s, SetMember(ms, text, v))
  {
    hide Conserved, Settled, WellTyped, Upward, MemberDone, Denotes, DenoteMembers, SetMember;
    HeldInUse(cells, all + multiset{s} + multiset{key} + multiset{value}, key);
    HeldInUse(cells, all + multiset{s} + multiset{key} + multiset{value}, value);
    MemberAdded(before, cells, all, s, ms, key, text, value, v);
  }

  /** Setting a member and giving up the references to key and value, as the loop does at its end. */
  method StoreMember(m: Memory, s: Ref, key: Ref, value: Ref, ghost held: multiset<Ref>)
    requires Sound(m.cells, held + multiset{s} + multiset{key} + multiset{value})
    requires HasTable(m.cells, s) && InUse(m.cells, key) && IsString(m.cells, key) && InUse(m.cells, value)
    modifies m
    ensures m.cells == MemberDone(old(m.cells), s, key, value)
  {
    hide Conserved, Settled, WellTyped, Release, MemberSet;
    ghost var all := held + multiset{s} + multiset{key} + multiset{value};
    var fault := m.StructSetValue(s, key, value, all);
    assert all == held + multiset{s} + multiset{value} + multiset{key};
    m.Decref(key, held + multiset{s} + multiset{value});
    m.Decref(value, held + multiset{s});
  }

  /** The loop body of convert_struct; on a fault the struct itself is left to the caller to release. */
  method ConvertMemberInto(m: Memory, max: nat, member: XmlTree, s: Ref, ghost before: seq<Cell>, ghost held: multiset<Ref>, ghost ms: seq<Member>) returns (fault: Option<int>)
    requires max >= 1 && Standing(before, m.cells, held + multiset{s}, s, ms)
    modifies m
    ensures fault.None? ==>
              && ConvertMember(max, member).Ok?
              && var pair := ConvertMember(max, member).value;
                 Standing(before, m.cells, held + multiset{s}, s, SetMember(ms, pair.key, pair.value))
    ensures fault.Some? ==>
              ConvertMember(max, member) == Fault(fault.value) && Tidy(before, m.cells) && Sound(m.cells, held + multiset{s})
    decreases member, 0
  {
    hide Converted, Sound, Standing, Tidy, ConvertValue, Utf8.Legal, SetMember, ChildNamed, MemberDone;
    StandingTidy(before, m.cells, held + multiset{s}, s, ms);
    if member.name != "member" || |member.children| != 2 {
      return Some(PARSE_ERROR);
    }
    var n := ChildByName(member.children, "name");
    if n == 2 {
      return Some(PARSE_ERROR);
    }
    var nameElem := member.children[n];
    if |nameElem.children| != 0 {
      return Some(PARSE_ERROR);
    }
    ghost var first := m.cells;
    var made := MakeStringValue(m, nameElem.cdata, held + multiset{s});
    if made.Fault? {
      FaultedAfter(before, first, m.cells, held + multiset{s}, s, ms, made.code, MakeString(nameElem.cdata));
      return Some(made.code);
    }
    var key := made.value;
    ghost var second := m.cells;
    StandsAfter(before, first, second, held + multiset{s}, s, ms, key, MakeString(nameElem.cdata));
    ghost var all := held + multiset{s} + multiset{key};
    StandingTidy(before, second, all, s, ms);
    var k := ChildByName(member.children, "value");
    if k == 2 {
      DropKey(m, key, before, held + multiset{s});
      return Some(PARSE_ERROR);
    }
    var converted := ConvertTree(m, max - 1, member.children[k], all);
    if converted.Fault? {
      FaultedAfter(before, second, m.cells, all, s, ms, converted.code, ConvertValue(max - 1, member.children[k]));
      DropKey(m, key, before, held + multiset{s});
      return Some(converted.code);
    }
    var value := converted.value;
    ghost var spec := ConvertValue(max - 1, member.children[k]);
    StandsAfter(before, second, m.cells, all, s, ms, value, spec);
    DenotesIn(second, key, Str(nameElem.cdata));
    DenotesIn(m.cells, value, spec.value);
    assert m.cells[key] == second[key];
    StandingTable(before, m.cells, all + multiset{value}, s, ms);
    ReadyToSet(before, m.cells, held, s, ms, key, nameElem.cdata, value, spec.value);
    StoreMember(m, s, key, value, held);
    return None;
  }

  lemma {:induction false} DenotesIn(cells: seq<Cell>, r: Ref, v: Value)
    requires Denotes(cells, r, v)
    ensures InUse(cells, r)
    ensures v.Str? ==> cells[r].body == BStr(v.s)
  {
  }

  lemma {:induction false} StandingTable(before: seq<Cell>, cells: seq<Cell>, all: multiset<Ref>, s: Ref, ms: seq<Member>)
    requires Standing(before, cells, all, s, ms)
    ensures HasTable(cells, s) && Sound(cells, all)
  {
  }

  lemma {:induction false} MembersStep(max: nat, children: seq<XmlTree>, ms: seq<Member>, i: nat)
    requires max >= 1 && i < |children|
    ensures ConvertMembers(max, children[i..], ms)
         == match ConvertMember(max, children[i])
            case Fault(code) => Fault(code)
            case Ok(m) => ConvertMembers(max, children[i + 1..], SetMember(ms, m.key, m.value))
  {
    hide ConvertMember, SetMember;
    assert children[i..][0] == children[i] && children[i..][1..] == children[i + 1..];
  }

  /** convert_struct */
  method ConvertStruct(m: Memory, max: nat, elem: XmlTree, ghost held: multiset<Ref>) returns (r: Result<Ref>)
    requires Sound(m.cells, held) && max >= 1
    modifies m
    ensures Converted(old(m.cells), m.cells, held, r, StructOf(max, elem))
    decreases elem, 0
  {
    hide Converted, Sound, Standing, ConvertMembers, ConvertMember, Tidy, SetMember, Refs;
    ghost var before := m.cells;
    StructBegun(before, held);
    assert Refs(BStruct([])) == [] by { NoMembers(); }
    var s := m.New(BStruct([]), held);
    var members := elem.children;
    ghost var ms: seq<Member> := [];
    var i := 0;
    assert members[0..] == members;
    while i < |members|
      invariant 0 <= i <= |members|
      invariant Standing(before, m.cells, held + multiset{s}, s, ms)
      invariant ConvertMembers(max, members, []) == ConvertMembers(max, members[i..], ms)
    {
      MembersStep(max, members, ms, i);
      StandingTidy(before, m.cells, held + multiset{s}, s, ms);
      var fault := ConvertMemberInto(m, max, members[i], s, before, held, ms);
      if fault.Some? {
        GiveUp(m, s, fault.value, before, held);
        return Fault(fault.value);
      }
      ghost var pair := ConvertMember(max, members[i]).value;
      ms := SetMember(ms, pair.key, pair.value);
      i := i + 1;
    }
    assert members[i..] == [];
    assert ConvertMembers(max, [], ms) == Ok(ms) by { MembersDone(max, ms); }
    StructConverted(before, m.cells, held, s, ms);
    return Ok(s);
  }

  lemma {:induction false} NoMembers()
    ensures Refs(BStruct([])) == []
  {
  }

  lemma {:induction false} MembersDone(max: nat, ms: seq<Member>)
    requires max >= 1
    ensures ConvertMembers(max, [], ms) == Ok(ms)
  {
  }

  lemma {:induction false} ConvertValueByKind(max: nat, t: XmlTree)
    requires max >= 1 && t.name == "value" && |t.children| == 1
    ensures var child := t.children[0];
            ConvertValue(max, t)
              == if child.name == "struct" then StructOf(max, child)
                 else if child.name == "array" then ArrayOf(max, child)
                 else if |child.children| != 0 then Fault(PARSE_ERROR)
                 else ConvertScalar(child.name, child.cdata)
  {
    hide ConvertItems, ConvertMembers, ConvertScalar;
  }

  /** convert_value */
  method ConvertTree(m: Memory, max: nat, t: XmlTree, ghost held: multiset<Ref>) returns (r: Result<Ref>)
    requires Sound(m.cells, held)
    modifies m
    ensures Converted(old(m.cells), m.cells, held, r, ConvertValue(max, t))
    decreases t, 1
  {
    hide Converted, Sound, ConvertItems, ConvertMembers, ConvertScalar, ArrayOf, StructOf, MakeString;
    FaultAtOnce(m.cells, held, PARSE_ERROR);
    if max < 1 {
      return Fault(PARSE_ERROR);
    }
    if t.name != "value" {
      return Fault(PARSE_ERROR);
    }
    if |t.children| == 0 {
      r := MakeStringValue(m, t.cdata, held);
      return;
    }
    if |t.children| != 1 {
      return Fault(PARSE_ERROR);
    }
    ConvertValueByKind(max, t);
    var child := t.children[0];
    if child.name == "struct" {
      r := ConvertStruct(m, max, child, held);
    } else if child.name == "array" {
      if |child.children| != 1 {
        assert ArrayOf(max, child) == Fault(PARSE_ERROR) by { ArrayNeedsData(max, child); }
        return Fault(PARSE_ERROR);
      }
      r := ConvertArray(m, max, child, held);
    } else {
      if |child.children| != 0 {
        return Fault(PARSE_ERROR);
      }
      r := ConvertLeaf(m, child.name, child.cdata, held);
    }
  }

  lemma {:induction false} ArrayNeedsData(max: nat, elem: XmlTree)
    requires max >= 1 && |elem.children| != 1
    ensures ArrayOf(max, elem) == Fault(PARSE_ERROR)
  {
  }
}
