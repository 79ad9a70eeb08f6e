/**
 The value API of xmlrpc_data.c, xmlrpc_array.c and xmlrpc_struct.c on the heap: creating values,
 INCREF and DECREF, arrays, and structs as hash-filtered member tables.

 `held` is ghost: the references the callers own. Every operation is proved to leave each count
 equal to what is held plus the slots that point there.
 */
module ValueHeap {
  import opened Bytes
  import opened Heap

  // ---------------------------------------------------------------- structs as tables of entries

  /** get_hash: the sum of the bytes, kept in an unsigned char. */
  function Hash(key: seq<byte>): byte
  {
    if key == [] then 0 else (Hash(key[..|key| - 1]) + key[|key| - 1]) % 256
  }

  lemma {:induction false} HashLast(s: seq<byte>, c: byte)
    ensures Hash(s + [c]) == (Hash(s) + c) % 256
  {
    assert (s + [c])[..|s|] == s;
  }

  lemma {:induction false} Mod256(x: byte, y: byte, z: byte)
    ensures ((x + y) % 256 + z) % 256 == (x + (y + z) % 256) % 256
  {
  }

  /** The hash of a text joined from two is the sum of theirs, modulo 256; one byte is its own hash. */
  lemma {:induction false} HashIsSum(a: seq<byte>, b: seq<byte>, c: byte)
    ensures Hash(a + b) == (Hash(a) + Hash(b)) % 256 && Hash([c]) == c
  {
    hide Hash;
    assert Hash([]) == 0 by { HashNothing(); }
    assert [] + [c] == [c];
    HashLast([], c);
    if b == [] {
      assert a + b == a;
    } else {
      var init, last := b[..|b| - 1], b[|b| - 1];
      assert init + [last] == b && (a + init) + [last] == a + b;
      HashIsSum(a, init, c);
      HashLast(init, last);
      HashLast(a + init, last);
      Mod256(Hash(a), Hash(init), last);
    }
  }

  lemma {:induction false} HashNothing()
    ensures Hash([]) == 0
  {
  }

  datatype Entry = Entry(key: seq<byte>, value: Ref)

  predicate IsString(cells: seq<Cell>, r: Ref)
  {
    r < |cells| && cells[r].Live? && cells[r].body.BStr?
  }

  function KeyText(cells: seq<Cell>, r: Ref): seq<byte>
  {
    if IsString(cells, r) then cells[r].body.s else []
  }

  function Entries(cells: seq<Cell>, slots: seq<Slot>): (es: seq<Entry>)
    ensures |es| == |slots|
  {
    seq(|slots|, k requires 0 <= k < |slots| => Entry(KeyText(cells, slots[k].key), slots[k].value))
  }

  predicate DistinctEntries(es: seq<Entry>)
  {
    forall i, j | 0 <= i < j < |es| :: es[i].key != es[j].key
  }

  /** Every key is a string value, the stored hash is the hash of its text, and no text occurs twice. */
  predicate TableOk(cells: seq<Cell>, slots: seq<Slot>)
  {
    && (forall k | 0 <= k < |slots| ::
          IsString(cells, slots[k].key) && slots[k].hash == Hash(KeyText(cells, slots[k].key)))
    && DistinctEntries(Entries(cells, slots))
  }

  predicate HasTable(cells: seq<Cell>, s: Ref) { InUse(cells, s) && cells[s].body.BStruct? }

  ghost predicate WellTyped(cells: seq<Cell>)
  {
    forall s: Ref | HasTable(cells, s) :: TableOk(cells, cells[s].body.slots)
  }

  /** The position of a key by plain search, or the number of entries if it is not there. */
  function EntryIndex(es: seq<Entry>, key: seq<byte>): (i: nat)
    ensures i <= |es|
    ensures i < |es| ==> es[i].key == key
    ensures forall k | 0 <= k < i :: es[k].key != key
  {
    FirstIndex(es, (e: Entry) => e.key == key)
  }

  function Put(es: seq<Entry>, key: seq<byte>, value: Ref): seq<Entry>
  {
    var i := EntryIndex(es, key);
    if i < |es| then es[i := Entry(key, value)] else es + [Entry(key, value)]
  }

  function AsMap(es: seq<Entry>): map<seq<byte>, Ref>
  {
    if es == [] then map[] else AsMap(es[..|es| - 1])[es[|es| - 1].key := es[|es| - 1].value]
  }

  lemma {:induction false} AsMapLookup(es: seq<Entry>, key: seq<byte>)
    requires DistinctEntries(es)
    ensures key in AsMap(es) <==> EntryIndex(es, key) < |es|
    ensures key in AsMap(es) ==> AsMap(es)[key] == es[EntryIndex(es, key)].value
  {
    hide EntryIndex;
    if es != [] {
      var init := es[..|es| - 1];
      AsMapLookup(init, key);
      var i, j := EntryIndex(es, key), EntryIndex(init, key);
      assert i < |init| ==> init[i].key == key;
      assert j < |init| ==> es[j].key == key;
    }
  }

  /** A table is a map: setting a key updates the map at that key and nowhere else, whether the key
      is new or replaced in place, and keeps the keys distinct. */
  lemma {:induction false} PutIsMapUpdate(es: seq<Entry>, key: seq<byte>, value: Ref)
    requires DistinctEntries(es)
    ensures DistinctEntries(Put(es, key, value))
    ensures AsMap(Put(es, key, value)) == AsMap(es)[key := value]
  {
    hide EntryIndex, AsMap;
    var put := Put(es, key, value);
    var i := EntryIndex(es, key);
    assert DistinctEntries(put);
    forall k: seq<byte>
      ensures k in AsMap(put) <==> k in AsMap(es)[key := value]
      ensures k in AsMap(put) ==> AsMap(put)[k] == AsMap(es)[key := value][k]
    {
      AsMapLookup(es, k);
      AsMapLookup(put, k);
      var a, b := EntryIndex(es, k), EntryIndex(put, k);
      if k == key {
        assert put[i].key == key;
        assert b == i;
      } else {
        assert a < |es| ==> put[a] == es[a];
        assert b < |put| ==> b != i && put[b] == es[b];
        assert a < |es| ==> a == b;
        assert b < |put| ==> a == b;
      }
    }
  }

  // ---------------------------------------------------------------- what the operations do to cells

  function Bump(cells: seq<Cell>, r: Ref): seq<Cell>
    requires r < |cells| && cells[r].Live?
  {
    cells[r := Live(cells[r].rc + 1, cells[r].body)]
  }

  function Rebody(cells: seq<Cell>, r: Ref, body: Body): seq<Cell>
    requires r < |cells| && cells[r].Live?
  {
    cells[r := Live(cells[r].rc, body)]
  }

  /** Appending to an array: the array gains a slot, the item a reference. */
  function Appended(cells: seq<Cell>, a: Ref, r: Ref): seq<Cell>
    requires InUse(cells, a) && cells[a].body.BArray? && InUse(cells, r)
  {
    Rebody(Bump(cells, r), a, BArray(cells[a].body.items + [r]))
  }

  /** Replacing the value of a member: the new value gains its reference before the old one loses
      its own. */
  function Replaced(cells: seq<Cell>, s: Ref, i: nat, value: Ref): seq<Cell>
    requires HasTable(cells, s) && i < |cells[s].body.slots| && InUse(cells, value)
  {
    var slots := cells[s].body.slots;
    Release(Rebody(Bump(cells, value), s, BStruct(slots[i := slots[i].(value := value)])), [slots[i].value])
  }

  /** Adding a member: key and value both gain a reference. */
  function Added(cells: seq<Cell>, s: Ref, key: Ref, value: Ref): seq<Cell>
    requires HasTable(cells, s) && InUse(cells, key) && InUse(cells, value)
  {
    Rebody(Bump(Bump(cells, key), value), s,
           BStruct(cells[s].body.slots + [Slot(Hash(KeyText(cells, key)), key, value)]))
  }

  /** Setting a member, by the key's text. */
  function MemberSet(cells: seq<Cell>, s: Ref, key: Ref, value: Ref): seq<Cell>
    requires HasTable(cells, s) && InUse(cells, key) && InUse(cells, value)
  {
    var slots := cells[s].body.slots;
    var i := EntryIndex(Entries(cells, slots), KeyText(cells, key));
    if i < |slots| then Replaced(cells, s, i, value) else Added(cells, s, key, value)
  }

  // ---------------------------------------------------------------- conservation

  lemma {:induction false} BumpConserves(cells: seq<Cell>, held: multiset<Ref>, r: Ref)
    requires Conserved(cells, held) && InUse(cells, r)
    ensures Conserved(Bump(cells, r), held + multiset{r})
  {
    hide Refs;
    var after := Bump(cells, r);
    forall x: Ref
      ensures Rc(after, x) == (held + multiset{r})[x] + SlotCount(after, x)
    {
      SlotCountUpdate(cells, r, after[r], x);
      assert Rc(cells, x) == held[x] + SlotCount(cells, x);
    }
  }

  /** References move between the outside and the slots of a value without changing any count. */
  lemma {:induction false} RebodyConserves(cells: seq<Cell>, held: multiset<Ref>, r: Ref, body: Body, held': multiset<Ref>)
    requires Conserved(cells, held) && InUse(cells, r)
    requires held + multiset(Refs(cells[r].body)) == held' + multiset(Refs(body))
    ensures Conserved(Rebody(cells, r, body), held')
  {
    hide Refs;
    var after := Rebody(cells, r, body);
    forall x: Ref
      ensures Rc(after, x) == held'[x] + SlotCount(after, x)
    {
      SlotCountUpdate(cells, r, after[r], x);
      assert Rc(cells, x) == held[x] + SlotCount(cells, x);
      assert (held + multiset(Refs(cells[r].body)))[x] == (held' + multiset(Refs(body)))[x];
    }
  }

  /** A new value starts with one reference, its creator's. */
  lemma {:induction false} NewConserves(cells: seq<Cell>, held: multiset<Ref>, body: Body)
    requires Conserved(cells, held) && Refs(body) == []
    ensures Conserved(cells + [Live(1, body)], held + multiset{|cells|})
  {
    hide Refs;
    var after := cells + [Live(1, body)];
    forall x: Ref
      ensures Rc(after, x) == (held + multiset{|cells|})[x] + SlotCount(after, x)
    {
      SlotCountAppend(cells, Live(1, body), x);
      assert Rc(cells, x) == held[x] + SlotCount(cells, x);
    }
  }

  lemma {:induction false} SlotRefsAppend(a: seq<Slot>, b: seq<Slot>)
    ensures SlotRefs(a + b) == SlotRefs(a) + SlotRefs(b)
  {
    if a == [] {
      assert a + b == b;
    } else {
      assert (a + b)[1..] == a[1..] + b;
      SlotRefsAppend(a[1..], b);
    }
  }

  lemma {:induction false} OneSlot(slot: Slot)
    ensures multiset(SlotRefs([slot])) == multiset{slot.key} + multiset{slot.value}
  {
    assert SlotRefs([slot]) == [slot.key] + [slot.value];
  }

  lemma {:induction false} SlotRefsReplace(slots: seq<Slot>, i: nat, slot: Slot)
    requires i < |slots|
    ensures multiset(SlotRefs(slots[i := slot])) + multiset(SlotRefs([slots[i]]))
         == multiset(SlotRefs(slots)) + multiset(SlotRefs([slot]))
  {
    hide SlotRefs;
    var pre, mid, post := slots[..i], [slots[i]], slots[i + 1..];
    assert slots == pre + mid + post && slots[i := slot] == pre + [slot] + post;
    SlotRefsAppend(pre + mid, post);
    SlotRefsAppend(pre, mid);
    SlotRefsAppend(pre + [slot], post);
    SlotRefsAppend(pre, [slot]);
  }

  lemma {:induction false} SlotRefsHas(slots: seq<Slot>, k: nat)
    requires k < |slots|
    ensures slots[k].key in SlotRefs(slots) && slots[k].value in SlotRefs(slots)
  {
    assert SlotRefs(slots)[2 * k] == slots[k].key && SlotRefs(slots)[2 * k + 1] == slots[k].value;
  }

  lemma {:induction false} AppendedConserves(cells: seq<Cell>, held: multiset<Ref>, a: Ref, r: Ref)
    requires Conserved(cells, held) && InUse(cells, a) && cells[a].body.BArray? && InUse(cells, r)
    ensures Conserved(Appended(cells, a, r), held)
  {
    hide Conserved;
    var items := cells[a].body.items;
    BumpConserves(cells, held, r);
    assert multiset(items + [r]) == multiset(items) + multiset{r};
    RebodyConserves(Bump(cells, r), held + multiset{r}, a, BArray(items + [r]), held);
  }

  /** Between storing the new value and releasing the old one, the old one is held by nobody else. */
  lemma {:induction false} ReplacedHolds(cells: seq<Cell>, held: multiset<Ref>, s: Ref, i: nat, value: Ref)
    requires Conserved(cells, held) && HasTable(cells, s) && i < |cells[s].body.slots| && InUse(cells, value)
    ensures var slots := cells[s].body.slots;
            Conserved(Rebody(Bump(cells, value), s, BStruct(slots[i := slots[i].(value := value)])),
                      held + multiset{slots[i].value})
  {
    hide Conserved, Release, SlotRefs;
    var slots := cells[s].body.slots;
    var slot := slots[i].(value := value);
    var was := slots[i].value;
    var body := BStruct(slots[i := slot]);
    BumpConserves(cells, held, value);
    SlotRefsReplace(slots, i, slot);
    OneSlot(slots[i]);
    OneSlot(slot);
    Exchange(held, multiset(SlotRefs(slots)), multiset(SlotRefs(body.slots)), slot.key, value, was);
    RebodyConserves(Bump(cells, value), held + multiset{value}, s, body, held + multiset{was});
  }

  lemma {:induction false} ReplacedConserves(cells: seq<Cell>, held: multiset<Ref>, s: Ref, i: nat, value: Ref)
    requires Conserved(cells, held) && HasTable(cells, s) && i < |cells[s].body.slots| && InUse(cells, value)
    ensures Conserved(Replaced(cells, s, i, value), held)
  {
    hide Conserved, Release, SlotRefs;
    var slots := cells[s].body.slots;
    ReplacedHolds(cells, held, s, i, value);
    assert multiset([slots[i].value]) == multiset{slots[i].value};
    ReleaseConserves(Rebody(Bump(cells, value), s, BStruct(slots[i := slots[i].(value := value)])), held, [slots[i].value]);
  }

  lemma {:induction false} Exchange(held: multiset<Ref>, a: multiset<Ref>, b: multiset<Ref>, k: Ref, v: Ref, w: Ref)
    requires b + (multiset{k} + multiset{w}) == a + (multiset{k} + multiset{v})
    ensures (held + multiset{v}) + a == (held + multiset{w}) + b
  {
    forall x: Ref
      ensures ((held + multiset{v}) + a)[x] == ((held + multiset{w}) + b)[x]
    {
      assert (b + (multiset{k} + multiset{w}))[x] == (a + (multiset{k} + multiset{v}))[x];
    }
  }

  lemma {:induction false} AddedConserves(cells: seq<Cell>, held: multiset<Ref>, s: Ref, key: Ref, value: Ref)
    requires Conserved(cells, held) && HasTable(cells, s) && InUse(cells, key) && InUse(cells, value)
    ensures Conserved(Added(cells, s, key, value), held)
  {
    hide Conserved, SlotRefs;
    var slots := cells[s].body.slots;
    var slot := Slot(Hash(KeyText(cells, key)), key, value);
    BumpConserves(cells, held, key);
    BumpConserves(Bump(cells, key), held + multiset{key}, value);
    SlotRefsAppend(slots, [slot]);
    OneSlot(slot);
    var refs, refs' := multiset(SlotRefs(slots)), multiset(SlotRefs(slots + [slot]));
    assert refs' == refs + (multiset{key} + multiset{value});
    assert (held + multiset{key} + multiset{value}) + refs == held + refs';
    RebodyConserves(Bump(Bump(cells, key), value), held + multiset{key} + multiset{value}, s,
                    BStruct(slots + [slot]), held);
  }

  lemma {:induction false} MemberSetConserves(cells: seq<Cell>, held: multiset<Ref>, s: Ref, key: Ref, value: Ref)
    requires Conserved(cells, held) && HasTable(cells, s) && InUse(cells, key) && InUse(cells, value)
    ensures Conserved(MemberSet(cells, s, key, value), held)
  {
    hide Conserved, Replaced, Added;
    var slots := cells[s].body.slots;
    var i := EntryIndex(Entries(cells, slots), KeyText(cells, key));
    if i < |slots| {
      ReplacedConserves(cells, held, s, i, value);
    } else {
      AddedConserves(cells, held, s, key, value);
    }
  }

  // ---------------------------------------------------------------- tables stay tables

  /** No operation alters the text of a string. */
  ghost predicate StringsKept(before: seq<Cell>, after: seq<Cell>)
  {
    forall r: Ref | InUse(after, r) && IsString(before, r) :: after[r].body == before[r].body
  }

  /** A table that is not written to keeps its entries: its keys cannot have been freed. */
  lemma {:induction false} TableKept(before: seq<Cell>, after: seq<Cell>, held: multiset<Ref>, s: Ref, slots: seq<Slot>)
    requires Conserved(after, held) && StringsKept(before, after)
    requires TableOk(before, slots)
    requires HasTable(after, s) && slots <= after[s].body.slots
    ensures TableOk(after, slots) && Entries(after, slots) == Entries(before, slots)
  {
    hide Conserved, Hash, SlotRefs;
    forall k | 0 <= k < |slots|
      ensures IsString(after, slots[k].key) && KeyText(after, slots[k].key) == KeyText(before, slots[k].key)
    {
      SlotRefsHas(after[s].body.slots, k);
      assert slots[k] == after[s].body.slots[k];
      NoDangling(after, held, s, slots[k].key);
    }
    assert Entries(after, slots) == Entries(before, slots);
  }

  /** Only the value `w`, if any, was written to. */
  ghost predicate OthersKept(before: seq<Cell>, after: seq<Cell>, w: Ref)
  {
    forall s: Ref | HasTable(after, s) && s != w :: HasTable(before, s) && after[s].body == before[s].body
  }

  lemma {:induction false} TablesKept(before: seq<Cell>, after: seq<Cell>, held: multiset<Ref>, w: Ref)
    requires WellTyped(before) && Conserved(after, held) && StringsKept(before, after) && OthersKept(before, after, w)
    requires HasTable(after, w) ==> TableOk(after, after[w].body.slots)
    ensures WellTyped(after)
  {
    hide Conserved, TableOk;
    forall s: Ref | HasTable(after, s)
      ensures TableOk(after, after[s].body.slots)
    {
      if s != w {
        TableKept(before, after, held, s, after[s].body.slots);
      }
    }
  }

  lemma {:induction false} ReleaseKeeps(cells: seq<Cell>, todo: seq<Ref>)
    ensures var after := Release(cells, todo);
            && StringsKept(cells, after)
            && (forall r: Ref | InUse(after, r) :: InUse(cells, r) && after[r].body == cells[r].body)
  {
    hide Release;
    var after := Release(cells, todo);
    forall r: Ref | InUse(after, r)
      ensures InUse(cells, r) && after[r].body == cells[r].body
    {
      ReleaseSurvivors(cells, todo, r);
    }
  }

  lemma {:induction false} ReleaseWellTyped(cells: seq<Cell>, held: multiset<Ref>, todo: seq<Ref>)
    requires WellTyped(cells) && Conserved(cells, held + multiset(todo))
    ensures WellTyped(Release(cells, todo))
  {
    hide Release, Conserved, TableOk;
    ReleaseKeeps(cells, todo);
    ReleaseConserves(cells, held, todo);
    TablesKept(cells, Release(cells, todo), held, |cells|);
  }

  lemma {:induction false} BumpWellTyped(cells: seq<Cell>, held: multiset<Ref>, r: Ref)
    requires WellTyped(cells) && Conserved(cells, held) && InUse(cells, r)
    ensures WellTyped(Bump(cells, r))
  {
    hide Conserved, TableOk;
    BumpConserves(cells, held, r);
    TablesKept(cells, Bump(cells, r), held + multiset{r}, |cells|);
  }

  lemma {:induction false} NewWellTyped(cells: seq<Cell>, held: multiset<Ref>, body: Body)
    requires WellTyped(cells) && Conserved(cells, held) && Refs(body) == []
    ensures WellTyped(cells + [Live(1, body)])
  {
    hide Conserved, SlotRefs, Hash;
    NewConserves(cells, held, body);
    if body.BStruct? {
      assert |SlotRefs(body.slots)| == 0;
    }
    TablesKept(cells, cells + [Live(1, body)], held + multiset{|cells|}, |cells|);
  }

  lemma {:induction false} AppendedWellTyped(cells: seq<Cell>, held: multiset<Ref>, a: Ref, r: Ref)
    requires WellTyped(cells) && Conserved(cells, held)
    requires InUse(cells, a) && cells[a].body.BArray? && InUse(cells, r)
    ensures WellTyped(Appended(cells, a, r))
  {
    hide Conserved, TableOk;
    AppendedConserves(cells, held, a, r);
    TablesKept(cells, Appended(cells, a, r), held, a);
  }

  /** Setting a member of a struct that is held: the struct lives on, its entries are those of the
      plain table with the key put, and every table in the heap is still one. */
  lemma {:induction false} MemberSetTable(cells: seq<Cell>, held: multiset<Ref>, s: Ref, key: Ref, value: Ref)
    requires WellTyped(cells) && Conserved(cells, held) && HasTable(cells, s) && held[s] > 0
    requires InUse(cells, key) && IsString(cells, key) && InUse(cells, value)
    ensures var after := MemberSet(cells, s, key, value);
            && WellTyped(after) && HasTable(after, s)
            && Entries(after, after[s].body.slots)
               == Put(Entries(cells, cells[s].body.slots), KeyText(cells, key), value)
  {
    hide Conserved, Replaced, Added, TableOk, Entries;
    var slots := cells[s].body.slots;
    var i := EntryIndex(Entries(cells, slots), KeyText(cells, key));
    if i < |slots| {
      ReplacedTable(cells, held, s, i, value);
    } else {
      AddedTable(cells, held, s, key, value);
    }
  }

  lemma {:induction false} TableReplace(cells: seq<Cell>, slots: seq<Slot>, i: nat, value: Ref)
    requires TableOk(cells, slots) && i < |slots|
    ensures var slots', es := slots[i := slots[i].(value := value)], Entries(cells, slots);
            TableOk(cells, slots') && Entries(cells, slots') == es[i := Entry(es[i].key, value)]
  {
    hide Hash, IsString, KeyText;
    var es := Entries(cells, slots);
    assert Entries(cells, slots[i := slots[i].(value := value)]) == es[i := Entry(es[i].key, value)];
  }

  lemma {:induction false} TableAdd(cells: seq<Cell>, slots: seq<Slot>, key: Ref, value: Ref)
    requires TableOk(cells, slots) && IsString(cells, key)
    requires EntryIndex(Entries(cells, slots), KeyText(cells, key)) == |slots|
    ensures var slots' := slots + [Slot(Hash(KeyText(cells, key)), key, value)];
            TableOk(cells, slots') && Entries(cells, slots') == Entries(cells, slots) + [Entry(KeyText(cells, key), value)]
  {
    hide Hash, IsString, KeyText, EntryIndex;
    assert Entries(cells, slots + [Slot(Hash(KeyText(cells, key)), key, value)])
        == Entries(cells, slots) + [Entry(KeyText(cells, key), value)];
  }

  lemma {:induction false} ReplacedTable(cells: seq<Cell>, held: multiset<Ref>, s: Ref, i: nat, value: Ref)
    requires WellTyped(cells) && Conserved(cells, held) && HasTable(cells, s) && held[s] > 0
    requires i < |cells[s].body.slots| && InUse(cells, value)
    ensures var after := Replaced(cells, s, i, value);
            && WellTyped(after) && HasTable(after, s)
            && Entries(after, after[s].body.slots)
               == Entries(cells, cells[s].body.slots)[i := Entry(Entries(cells, cells[s].body.slots)[i].key, value)]
  {
    hide Conserved, Release, Hash, SlotRefs, TableOk, Entries;
    var slots := cells[s].body.slots;
    var slots' := slots[i := slots[i].(value := value)];
    var mid := Rebody(Bump(cells, value), s, BStruct(slots'));
    var after := Replaced(cells, s, i, value);
    ReplacedConserves(cells, held, s, i, value);
    HeldInUse(after, held, s);
    ReleaseKeeps(mid, [slots[i].value]);
    assert after[s].body == BStruct(slots');
    assert StringsKept(cells, after);
    TableReplace(cells, slots, i, value);
    TableKept(cells, after, held, s, slots');
    TablesKept(cells, after, held, s);
  }

  lemma {:induction false} AddedTable(cells: seq<Cell>, held: multiset<Ref>, s: Ref, key: Ref, value: Ref)
    requires WellTyped(cells) && Conserved(cells, held) && HasTable(cells, s)
    requires InUse(cells, key) && IsString(cells, key) && InUse(cells, value)
    requires EntryIndex(Entries(cells, cells[s].body.slots), KeyText(cells, key)) == |cells[s].body.slots|
    ensures var after := Added(cells, s, key, value);
            && WellTyped(after) && HasTable(after, s)
            && Entries(after, after[s].body.slots)
               == Entries(cells, cells[s].body.slots) + [Entry(KeyText(cells, key), value)]
  {
    hide Conserved, Hash, SlotRefs, TableOk, Entries;
    var slots := cells[s].body.slots;
    var slots' := slots + [Slot(Hash(KeyText(cells, key)), key, value)];
    var after := Added(cells, s, key, value);
    AddedConserves(cells, held, s, key, value);
    assert StringsKept(cells, after);
    TableAdd(cells, slots, key, value);
    TableKept(cells, after, held, s, slots');
    TablesKept(cells, after, held, s);
  }

  /** What holds between any two calls of the API. */
  ghost predicate Sound(cells: seq<Cell>, held: multiset<Ref>)
  {
    Conserved(cells, held) && Settled(cells) && WellTyped(cells)
  }

  lemma {:induction false} ReleaseSound(cells: seq<Cell>, held: multiset<Ref>, todo: seq<Ref>)
    requires Sound(cells, held + multiset(todo))
    ensures Sound(Release(cells, todo), held)
  {
    hide Release, Conserved, Settled, WellTyped;
    ReleaseConserves(cells, held, todo);
    ReleaseSettled(cells, todo);
    ReleaseWellTyped(cells, held, todo);
  }

  lemma {:induction false} BumpSound(cells: seq<Cell>, held: multiset<Ref>, r: Ref)
    requires Sound(cells, held) && InUse(cells, r)
    ensures Sound(Bump(cells, r), held + multiset{r})
  {
    hide Conserved, WellTyped;
    BumpConserves(cells, held, r);
    BumpWellTyped(cells, held, r);
  }

  lemma {:induction false} NewSound(cells: seq<Cell>, held: multiset<Ref>, body: Body)
    requires Sound(cells, held) && Refs(body) == []
    ensures Sound(cells + [Live(1, body)], held + multiset{|cells|})
  {
    hide Conserved, WellTyped, Refs;
    NewConserves(cells, held, body);
    NewWellTyped(cells, held, body);
  }

  lemma {:induction false} AppendedSound(cells: seq<Cell>, held: multiset<Ref>, a: Ref, r: Ref)
    requires Sound(cells, held) && InUse(cells, a) && cells[a].body.BArray? && InUse(cells, r)
    ensures Sound(Appended(cells, a, r), held)
  {
    hide Conserved, WellTyped;
    AppendedConserves(cells, held, a, r);
    AppendedWellTyped(cells, held, a, r);
  }

  lemma {:induction false} MemberSetSound(cells: seq<Cell>, held: multiset<Ref>, s: Ref, key: Ref, value: Ref)
    requires Sound(cells, held) && HasTable(cells, s) && held[s] > 0
    requires InUse(cells, key) && IsString(cells, key) && InUse(cells, value)
    ensures Sound(MemberSet(cells, s, key, value), held)
  {
    hide Conserved, WellTyped, Release, EntryIndex, Entries;
    MemberSetConserves(cells, held, s, key, value);
    MemberSetTable(cells, held, s, key, value);
    var slots := cells[s].body.slots;
    var i := EntryIndex(Entries(cells, slots), KeyText(cells, key));
    if i < |slots| {
      ReleaseSettled(Rebody(Bump(cells, value), s, BStruct(slots[i := slots[i].(value := value)])), [slots[i].value]);
    }
  }

  lemma {:induction false} NothingToRelease(cells: seq<Cell>)
    ensures Release(cells, []) == cells
  {
  }

  lemma {:induction false} DeadConserves(cells: seq<Cell>, held: multiset<Ref>, r: Ref)
    requires Conserved(cells, held) && r < |cells| && cells[r].Live? && cells[r].rc == 0
    ensures Conserved(cells[r := Dead], held)
  {
    var after := cells[r := Dead];
    forall x: Ref
      ensures Rc(after, x) == held[x] + SlotCount(after, x)
    {
      SlotCountUpdate(cells, r, Dead, x);
      assert Rc(cells, x) == held[x] + SlotCount(cells, x);
    }
  }

  // ---------------------------------------------------------------- the heap

  class Memory {
    var cells: seq<Cell>

    constructor ()
      ensures Sound(cells, multiset{}) && cells == []
    {
      cells := [];
    }

    /** xmlrpc_createXmlrpcValue and the constructors built on it */
    method New(body: Body, ghost held: multiset<Ref>) returns (r: Ref)
      requires Sound(cells, held) && Refs(body) == []
      modifies this
      ensures r == |old(cells)| && cells == old(cells) + [Live(1, body)]
      ensures Sound(cells, held + multiset{r})
    {
      NewSound(cells, held, body);
      r := |cells|;
      cells := cells + [Live(1, body)];
    }

    method Incref(r: Ref)
      requires InUse(cells, r)
      modifies this
      ensures cells == Bump(old(cells), r)
    {
      cells := cells[r := Live(cells[r].rc + 1, cells[r].body)];
    }

    /** xmlrpc_DECREF: the value is in use whenever this is called, the whole cascade through. */
    method Decref(r: Ref, ghost held: multiset<Ref>)
      requires Conserved(cells, held + multiset{r})
      modifies this
      ensures cells == Release(old(cells), [r])
      ensures Conserved(cells, held)
      decreases TotalRc(cells), 0
    {
      hide Conserved, Refs, SlotRefs;
      HeldInUse(cells, held + multiset{r}, r);
      ghost var before := cells;
      ghost var c := cells[r];
      ghost var dying := Live(c.rc - 1, c.body);
      TotalRcUpdate(cells, r, dying);
      TotalRcUpdate(cells, r, Dead);
      if c.rc == 1 {
        FreeCell(cells, held, r, dying);
      } else {
        LowerCount(cells, held, r);
      }
      cells := cells[r := Live(cells[r].rc - 1, cells[r].body)];
      if cells[r].rc == 0 {
        DestroyValue(r, held);
        assert before[r := dying][r := Dead] == before[r := Dead];
        assert Refs(c.body) + [r][1..] == Refs(c.body);
      }
    }

    /** destroyValue: release what the value holds, then mark it dead. */
    method DestroyValue(r: Ref, ghost held: multiset<Ref>)
      requires r < |cells| && cells[r].Live? && cells[r].rc == 0
      requires Conserved(cells, held + multiset(Refs(cells[r].body)))
      modifies this
      ensures cells == Release(old(cells)[r := Dead], Refs(old(cells[r].body)))
      ensures Conserved(cells, held)
      decreases TotalRc(cells), 2
    {
      hide Conserved, Release;
      ghost var before := cells;
      var body := cells[r].body;
      ghost var refs := Refs(body);
      match body {
        case BArray(items) =>
          DestroyArrayContents(r, held);
        case BStruct(slots) =>
          DestroyStruct(r, held);
        case _ =>
          assert held + multiset(refs) == held;
          assert cells == Release(before, refs) by { NothingToRelease(before); }
      }
      ReleaseSurvivors(before, refs, r);
      ReleaseInert(before, refs, r, Dead);
      DeadConserves(cells, held, r);
      cells := cells[r := Dead];
    }

    /** xmlrpc_destroyArrayContents */
    method DestroyArrayContents(r: Ref, ghost held: multiset<Ref>)
      requires r < |cells| && cells[r].Live? && cells[r].rc == 0 && cells[r].body.BArray?
      requires Conserved(cells, held + multiset(cells[r].body.items))
      modifies this
      ensures cells == Release(old(cells), old(cells[r].body.items))
      ensures Conserved(cells, held)
      decreases TotalRc(cells), 1
    {
      hide Conserved, Release;
      ghost var before := cells;
      var items := cells[r].body.items;
      var index := 0;
      NothingToRelease(before);
      while index < |items|
        invariant 0 <= index <= |items|
        invariant cells == Release(before, items[..index]) && TotalRc(cells) <= TotalRc(before)
        invariant Conserved(cells, held + multiset(items[index..]))
      {
        assert items[index..] == [items[index]] + items[index + 1..];
        assert held + multiset(items[index..]) == held + multiset(items[index + 1..]) + multiset{items[index]};
        Decref(items[index], held + multiset(items[index + 1..]));
        assert items[..index + 1] == items[..index] + [items[index]];
        ReleaseConcat(before, items[..index], [items[index]]);
        ReleaseTotal(before, items[..index + 1]);
        index := index + 1;
      }
      assert items[..index] == items;
      assert held + multiset(items[index..]) == held;
    }

    /** xmlrpc_destroyStruct */
    method DestroyStruct(r: Ref, ghost held: multiset<Ref>)
      requires r < |cells| && cells[r].Live? && cells[r].rc == 0 && cells[r].body.BStruct?
      requires Conserved(cells, held + multiset(SlotRefs(cells[r].body.slots)))
      modifies this
      ensures cells == Release(old(cells), SlotRefs(old(cells[r].body.slots)))
      ensures Conserved(cells, held)
      decreases TotalRc(cells), 1
    {
      hide Conserved, Release, SlotRefs;
      ghost var before := cells;
      var slots := cells[r].body.slots;
      ghost var refs := SlotRefs(slots);
      var i := 0;
      NothingToRelease(before);
      while i < |slots|
        invariant 0 <= i <= |slots|
        invariant cells == Release(before, refs[..2 * i]) && TotalRc(cells) <= TotalRc(before)
        invariant Conserved(cells, held + multiset(refs[2 * i..]))
      {
        ghost var rest := held + multiset(refs[2 * i + 2..]);
        var key, value := slots[i].key, slots[i].value;
        assert refs[2 * i..] == [key] + [value] + refs[2 * i + 2..];
        assert held + multiset(refs[2 * i..]) == rest + multiset{value} + multiset{key};
        Decref(key, rest + multiset{value});
        ReleaseConcat(before, refs[..2 * i], [key]);
        ReleaseTotal(before, refs[..2 * i] + [key]);
        Decref(value, rest);
        ReleaseConcat(before, refs[..2 * i] + [key], [value]);
        assert refs[..2 * i + 2] == refs[..2 * i] + [key] + [value];
        ReleaseTotal(before, refs[..2 * i + 2]);
        i := i + 1;
      }
      assert refs[..2 * i] == refs;
      assert held + multiset(refs[2 * i..]) == held;
    }

    /** xmlrpc_array_append_item */
    method ArrayAppend(a: Ref, value: Ref, ghost held: multiset<Ref>) returns (fault: Option<int>)
      requires Sound(cells, held) && held[a] > 0 && held[value] > 0
      modifies this
      ensures InUse(old(cells), a) && InUse(old(cells), value)
      ensures fault == if old(cells[a].body.BArray?) then None else Some(TYPE_ERROR)
      ensures cells == if fault.None? then Appended(old(cells), a, value) else old(cells)
      ensures Sound(cells, held)
    {
      hide Conserved, Settled, WellTyped;
      HeldInUse(cells, held, a);
      HeldInUse(cells, held, value);
      if !cells[a].body.BArray? {
        return Some(TYPE_ERROR);
      }
      AppendedSound(cells, held, a, value);
      Incref(value);
      cells := cells[a := Live(cells[a].rc, BArray(cells[a].body.items + [value]))];
      return None;
    }

    /** xmlrpc_array_read_item: the caller gets a reference of its own. */
    method ArrayReadItem(a: Ref, index: nat, ghost held: multiset<Ref>) returns (r: Result<Ref>)
      requires Sound(cells, held) && held[a] > 0
      modifies this
      ensures InUse(old(cells), a)
      ensures r == if !old(cells[a].body.BArray?) then Fault(TYPE_ERROR)
                   else if index >= |old(cells[a].body.items)| then Fault(INDEX_ERROR)
                   else Ok(old(cells[a].body.items)[index])
      ensures r.Ok? ==> InUse(old(cells), r.value) && cells == Bump(old(cells), r.value)
      ensures r.Ok? ==> Sound(cells, held + multiset{r.value})
      ensures r.Fault? ==> cells == old(cells)
    {
      hide Conserved, Settled, WellTyped;
      HeldInUse(cells, held, a);
      if !cells[a].body.BArray? {
        return Fault(TYPE_ERROR);
      }
      var items := cells[a].body.items;
      if index >= |items| {
        return Fault(INDEX_ERROR);
      }
      var item := items[index];
      NoDangling(cells, held, a, item);
      BumpSound(cells, held, item);
      Incref(item);
      return Ok(item);
    }

    /** get_hash */
    method GetHash(key: seq<byte>) returns (hash: byte)
      ensures hash == Hash(key)
    {
      hash := 0;
      var i := 0;
      while i < |key|
        invariant 0 <= i <= |key| && hash == Hash(key[..i])
      {
        assert key[..i + 1][..i] == key[..i];
        hash := (hash as int + key[i]) % 256;
        i := i + 1;
      }
      assert key[..i] == key;
    }

    /** find_member: looking only at members whose hash fits finds what a plain search finds. */
    method FindMember(s: Ref, key: seq<byte>) returns (index: int)
      requires HasTable(cells, s) && TableOk(cells, cells[s].body.slots)
      ensures var slots := cells[s].body.slots;
              var i := EntryIndex(Entries(cells, slots), key);
              index == if i < |slots| then i else -1
    {
      hide EntryIndex, Hash;
      var hash := GetHash(key);
      var contents := cells[s].body.slots;
      ghost var es := Entries(cells, contents);
      var i := 0;
      while i < |contents|
        invariant 0 <= i <= |contents|
        invariant forall k | 0 <= k < i :: es[k].key != key
      {
        if contents[i].hash == hash {
          var text := cells[contents[i].key].body.s;
          if |key| == |text| && key == text {
            assert es[i].key == key;
            return i;
          }
        }
        i := i + 1;
      }
      return -1;
    }

    /** xmlrpc_struct_find_value_v: the value a key names, if any, with a reference for the caller. */
    method StructFindValue(s: Ref, key: Ref, ghost held: multiset<Ref>) returns (r: Result<Option<Ref>>)
      requires Sound(cells, held) && held[s] > 0 && held[key] > 0
      modifies this
      ensures InUse(old(cells), s) && InUse(old(cells), key)
      ensures r.Fault? <==> !(old(cells[s].body.BStruct?) && old(cells[key].body.BStr?))
      ensures r.Fault? ==> r.code == TYPE_ERROR && cells == old(cells)
      ensures r.Ok? ==>
                var es := Entries(old(cells), old(cells[s].body.slots));
                var i := EntryIndex(es, KeyText(old(cells), key));
                r.value == if i < |es| then Some(es[i].value) else None
      ensures r.Ok? && r.value.None? ==> cells == old(cells)
      ensures r.Ok? && r.value.Some? ==>
                && InUse(old(cells), r.value.value) && cells == Bump(old(cells), r.value.value)
                && Sound(cells, held + multiset{r.value.value})
    {
      hide Conserved, Settled, TableOk, SlotRefs;
      HeldInUse(cells, held, s);
      HeldInUse(cells, held, key);
      if !cells[s].body.BStruct? {
        return Fault(TYPE_ERROR);
      }
      if !cells[key].body.BStr? {
        return Fault(TYPE_ERROR);
      }
      var slots := cells[s].body.slots;
      assert HasTable(cells, s);
      var index := FindMember(s, cells[key].body.s);
      if index < 0 {
        return Ok(None);
      }
      var value := slots[index].value;
      SlotRefsHas(slots, index);
      NoDangling(cells, held, s, value);
      BumpSound(cells, held, value);
      Incref(value);
      return Ok(Some(value));
    }

    /** xmlrpc_struct_set_value_v */
    method StructSetValue(s: Ref, key: Ref, value: Ref, ghost held: multiset<Ref>) returns (fault: Option<int>)
      requires Sound(cells, held) && held[s] > 0 && held[key] > 0 && held[value] > 0
      modifies this
      ensures InUse(old(cells), s) && InUse(old(cells), key) && InUse(old(cells), value)
      ensures fault == if old(cells[s].body.BStruct?) && old(cells[key].body.BStr?) then None else Some(TYPE_ERROR)
      ensures cells == if fault.None? then MemberSet(old(cells), s, key, value) else old(cells)
      ensures Sound(cells, held)
    {
      hide Conserved, Settled, TableOk, SlotRefs, Release, EntryIndex;
      HeldInUse(cells, held, s);
      HeldInUse(cells, held, key);
      HeldInUse(cells, held, value);
      if !cells[s].body.BStruct? {
        return Some(TYPE_ERROR);
      }
      if !cells[key].body.BStr? {
        return Some(TYPE_ERROR);
      }
      ghost var before := cells;
      MemberSetSound(before, held, s, key, value);
      assert HasTable(cells, s);
      var text := cells[key].body.s;
      var index := FindMember(s, text);
      if index >= 0 {
        var members := cells[s].body.slots;
        var oldValue := members[index].value;
        cells := cells[s := Live(cells[s].rc, BStruct(members[index := members[index].(value := value)]))];
        Incref(value);
        assert cells == Rebody(Bump(before, value), s, BStruct(members[index := members[index].(value := value)]));
        ReplacedHolds(before, held, s, index, value);
        Decref(oldValue, held);
      } else {
        var hash := GetHash(text);
        cells := cells[s := Live(cells[s].rc, BStruct(cells[s].body.slots + [Slot(hash, key, value)]))];
        Incref(key);
        Incref(value);
        assert cells == Added(before, s, key, value);
      }
      return None;
    }
  }
}
