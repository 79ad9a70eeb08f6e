/**
 Whole runs of the value API: the counts stay right whatever the calls, and what is leaked in the
 end is exactly what sits on or behind a cycle.
 */
module HeapRuns {
  import opened Bytes
  import opened Heap
  import opened ValueHeap

  // ---------------------------------------------------------------- runs

  /** One call of the API by somebody who holds the references it passes. */
  datatype Op =
    | Make(body: Body)
    | Share(r: Ref)
    | Drop(r: Ref)
    | Append(a: Ref, item: Ref)
    | ReadItem(a: Ref, index: nat)
    | FindValue(s: Ref, key: Ref)
    | SetValue(s: Ref, key: Ref, value: Ref)

  datatype State = State(cells: seq<Cell>, held: multiset<Ref>)

  /** What the API asks of its callers: to hold what they pass. */
  predicate Legal(st: State, op: Op)
  {
    match op
    case Make(body) => Refs(body) == []
    case Share(r) => st.held[r] > 0
    case Drop(r) => st.held[r] > 0
    case Append(a, item) => st.held[a] > 0 && st.held[item] > 0
    case ReadItem(a, _) => st.held[a] > 0
    case FindValue(s, key) => st.held[s] > 0 && st.held[key] > 0
    case SetValue(s, key, value) => st.held[s] > 0 && st.held[key] > 0 && st.held[value] > 0
  }

  predicate HasItems(cells: seq<Cell>, a: Ref) { InUse(cells, a) && cells[a].body.BArray? }

  /** The caller takes a reference of its own. */
  function Taken(st: State, r: Ref): State
  {
    if InUse(st.cells, r) then State(Bump(st.cells, r), st.held + multiset{r}) else st
  }

  /** What the call does, as the methods of Memory are proved to do it; a fault changes nothing. */
  function Step(st: State, op: Op): State
  {
    var cells := st.cells;
    match op
    case Make(body) => State(cells + [Live(1, body)], st.held + multiset{|cells|})
    case Share(r) => Taken(st, r)
    case Drop(r) => State(Release(cells, [r]), st.held - multiset{r})
    case Append(a, item) =>
      if HasItems(cells, a) && InUse(cells, item) then State(Appended(cells, a, item), st.held) else st
    case ReadItem(a, index) =>
      if HasItems(cells, a) && index < |cells[a].body.items| then Taken(st, cells[a].body.items[index]) else st
    case FindValue(s, key) =>
      if HasTable(cells, s) && IsString(cells, key) then
        var es := Entries(cells, cells[s].body.slots);
        var i := EntryIndex(es, KeyText(cells, key));
        if i < |es| then Taken(st, es[i].value) else st
      else st
    case SetValue(s, key, value) =>
      if HasTable(cells, s) && InUse(cells, key) && IsString(cells, key) && InUse(cells, value) then
        State(MemberSet(cells, s, key, value), st.held)
      else st
  }

  function Run(st: State, ops: seq<Op>): State
    decreases |ops|
  {
    if ops == [] then st else Run(Step(st, ops[0]), ops[1..])
  }

  predicate LegalRun(st: State, ops: seq<Op>)
    decreases |ops|
  {
    ops == [] || (Legal(st, ops[0]) && LegalRun(Step(st, ops[0]), ops[1..]))
  }

  lemma {:induction false} TakenSound(st: State, r: Ref)
    requires Sound(st.cells, st.held)
    ensures Sound(Taken(st, r).cells, Taken(st, r).held)
  {
    hide Sound;
    if InUse(st.cells, r) {
      BumpSound(st.cells, st.held, r);
    }
  }

  /** Every call keeps every count equal to the references held plus the slots that point there, and
      every struct a table with distinct keys and right hashes. */
  lemma {:induction false} StepSound(st: State, op: Op)
    requires Sound(st.cells, st.held) && Legal(st, op)
    ensures Sound(Step(st, op).cells, Step(st, op).held)
  {
    hide Sound, Release, MemberSet, EntryIndex, Entries, Refs;
    var cells, held := st.cells, st.held;
    match op {
      case Make(body) => NewSound(cells, held, body);
      case Share(r) => TakenSound(st, r);
      case Drop(r) =>
        assert held == held - multiset{r} + multiset([r]);
        ReleaseSound(cells, held - multiset{r}, [r]);
      case Append(a, item) =>
        if HasItems(cells, a) && InUse(cells, item) {
          AppendedSound(cells, held, a, item);
        }
      case ReadItem(a, index) =>
        if HasItems(cells, a) && index < |cells[a].body.items| {
          TakenSound(st, cells[a].body.items[index]);
        }
      case FindValue(s, key) =>
        if HasTable(cells, s) && IsString(cells, key) {
          var es := Entries(cells, cells[s].body.slots);
          var i := EntryIndex(es, KeyText(cells, key));
          if i < |es| {
            TakenSound(st, es[i].value);
          }
        }
      case SetValue(s, key, value) =>
        if HasTable(cells, s) && InUse(cells, key) && IsString(cells, key) && InUse(cells, value) {
          MemberSetSound(cells, held, s, key, value);
        }
    }
  }

  lemma {:induction false} RunSound(st: State, ops: seq<Op>)
    requires Sound(st.cells, st.held) && LegalRun(st, ops)
    ensures Sound(Run(st, ops).cells, Run(st, ops).held)
    decreases |ops|
  {
    hide Sound, Step;
    if ops != [] {
      StepSound(st, ops[0]);
      RunSound(Step(st, ops[0]), ops[1..]);
    }
  }

  /** A call made on the heap itself. `held'` is what the caller holds afterwards. */
  method Perform(m: Memory, op: Op, ghost held: multiset<Ref>) returns (ghost held': multiset<Ref>)
    requires Sound(m.cells, held) && Legal(State(m.cells, held), op)
    modifies m
    ensures State(m.cells, held') == Step(State(old(m.cells), held), op)
    ensures Sound(m.cells, held')
  {
    hide Conserved, WellTyped, Settled, Release, MemberSet, Entries, EntryIndex, Refs;
    StepSound(State(m.cells, held), op);
    held' := held;
    match op {
      case Make(body) =>
        var r := m.New(body, held);
        held' := held + multiset{r};
      case Share(r) =>
        HeldInUse(m.cells, held, r);
        m.Incref(r);
        held' := held + multiset{r};
      case Drop(r) =>
        held' := held - multiset{r};
        assert held == held' + multiset{r};
        m.Decref(r, held');
      case Append(a, item) =>
        var _ := m.ArrayAppend(a, item, held);
      case ReadItem(a, index) =>
        var r := m.ArrayReadItem(a, index, held);
        held' := if r.Ok? then held + multiset{r.value} else held;
      case FindValue(s, key) =>
        var r := m.StructFindValue(s, key, held);
        held' := if r.Ok? && r.value.Some? then held + multiset{r.value.value} else held;
      case SetValue(s, key, value) =>
        var _ := m.StructSetValue(s, key, value, held);
    }
  }

  /** A run of calls made on the heap itself. */
  method PerformAll(m: Memory, ops: seq<Op>, ghost held: multiset<Ref>) returns (ghost held': multiset<Ref>)
    requires Sound(m.cells, held) && LegalRun(State(m.cells, held), ops)
    modifies m
    ensures State(m.cells, held') == Run(State(old(m.cells), held), ops)
    ensures Sound(m.cells, held')
  {
    hide Sound, Step;
    held' := held;
    assert ops[0..] == ops;
    for i := 0 to |ops|
      invariant Sound(m.cells, held') && LegalRun(State(m.cells, held'), ops[i..])
      invariant Run(State(m.cells, held'), ops[i..]) == Run(State(old(m.cells), held), ops)
    {
      assert ops[i..][0] == ops[i] && ops[i..][1..] == ops[i + 1..];
      held' := Perform(m, ops[i], held');
    }
    assert ops[|ops|..] == [];
  }

  // ---------------------------------------------------------------- a struct over a whole run

  /** The entries of a struct. */
  function Table(cells: seq<Cell>, s: Ref): seq<Entry>
    requires HasTable(cells, s)
  {
    Entries(cells, cells[s].body.slots)
  }

  /** The call sets a member of this struct. */
  predicate Sets(st: State, op: Op, s: Ref) { op.SetValue? && op.s == s && IsString(st.cells, op.key) }

  /** The members set in the struct during a run, in order: each key's text at the time, and the value. */
  function Settings(st: State, ops: seq<Op>, s: Ref): seq<Entry>
    decreases |ops|
  {
    if ops == [] then []
    else
      var rest := Settings(Step(st, ops[0]), ops[1..], s);
      if Sets(st, ops[0], s) then [Entry(KeyText(st.cells, ops[0].key), ops[0].value)] + rest else rest
  }

  /** The caller never lets go of the value. */
  predicate HeldThroughout(st: State, ops: seq<Op>, s: Ref)
    decreases |ops|
  {
    st.held[s] > 0 && (ops != [] ==> HeldThroughout(Step(st, ops[0]), ops[1..], s))
  }

  function Updated(m: map<seq<byte>, Ref>, settings: seq<Entry>): map<seq<byte>, Ref>
  {
    if settings == [] then m
    else Updated(m, settings[..|settings| - 1])[settings[|settings| - 1].key := settings[|settings| - 1].value]
  }

  /** Whatever still is in use is as it was, except the one value `w` that may have been written to. */
  ghost predicate Unwritten(before: seq<Cell>, after: seq<Cell>, w: Ref)
  {
    forall r: Ref | InUse(after, r) && r < |before| && r != w :: InUse(before, r) && after[r].body == before[r].body
  }

  lemma {:induction false} MemberSetUnwritten(cells: seq<Cell>, s: Ref, key: Ref, value: Ref)
    requires HasTable(cells, s) && InUse(cells, key) && InUse(cells, value)
    ensures Unwritten(cells, MemberSet(cells, s, key, value), s)
  {
    hide Release, EntryIndex, Entries, KeyText, Hash;
    var slots := cells[s].body.slots;
    var i := EntryIndex(Entries(cells, slots), KeyText(cells, key));
    if i < |slots| {
      ReleaseKeeps(Rebody(Bump(cells, value), s, BStruct(slots[i := slots[i].(value := value)])), [slots[i].value]);
    }
  }

  /** A call that does not set a member of the struct writes to another value, if to any. */
  lemma {:induction false} StepUnwritten(st: State, op: Op, s: Ref) returns (w: Ref)
    requires Sound(st.cells, st.held) && Legal(st, op) && HasTable(st.cells, s) && !Sets(st, op, s)
    ensures Unwritten(st.cells, Step(st, op).cells, w) && w != s
    ensures w < |st.cells| ==> !IsString(st.cells, w)
  {
    hide Release, MemberSet, EntryIndex, Entries, Refs, Conserved, WellTyped, KeyText;
    var cells := st.cells;
    w := |cells| + s + 1;
    match op {
      case Drop(r) => ReleaseKeeps(cells, [r]);
      case Append(a, item) =>
        if HasItems(cells, a) { w := a; }
      case SetValue(s', key, value) =>
        if HasTable(cells, s') && InUse(cells, key) && IsString(cells, key) && InUse(cells, value) {
          w := s';
          MemberSetUnwritten(cells, s', key, value);
        }
      case _ =>
    }
  }

  /** One call, for a struct held before and after it: a set puts the key, anything else leaves the
      struct's entries alone, even where it frees other values. */
  lemma {:induction false} StepTable(st: State, op: Op, s: Ref)
    requires Sound(st.cells, st.held) && Legal(st, op) && HasTable(st.cells, s)
    requires st.held[s] > 0 && Step(st, op).held[s] > 0
    ensures HasTable(Step(st, op).cells, s)
    ensures Table(Step(st, op).cells, s)
         == if Sets(st, op, s) then Put(Table(st.cells, s), KeyText(st.cells, op.key), op.value) else Table(st.cells, s)
  {
    hide Step, Conserved, TableOk, Entries, KeyText, MemberSet, Put, Refs;
    var after := Step(st, op);
    StepSound(st, op);
    if Sets(st, op, s) {
      HeldInUse(st.cells, st.held, op.key);
      HeldInUse(st.cells, st.held, op.value);
      MemberSetTable(st.cells, st.held, s, op.key, op.value);
      SetStep(st, op);
    } else {
      var w := StepUnwritten(st, op, s);
      HeldInUse(after.cells, after.held, s);
      StepLonger(st, op);
      assert StringsKept(st.cells, after.cells);
      TableKept(st.cells, after.cells, after.held, s, st.cells[s].body.slots);
    }
  }

  lemma {:induction false} SetStep(st: State, op: Op)
    requires op.SetValue? && HasTable(st.cells, op.s) && InUse(st.cells, op.key) && IsString(st.cells, op.key)
    requires InUse(st.cells, op.value)
    ensures Step(st, op) == State(MemberSet(st.cells, op.s, op.key, op.value), st.held)
  {
  }

  lemma {:induction false} StepLonger(st: State, op: Op)
    requires Sound(st.cells, st.held) && Legal(st, op)
    ensures |Step(st, op).cells| >= |st.cells|
  {
    hide EntryIndex, Entries, Refs, Conserved, WellTyped, KeyText, Hash;
  }

  /** A struct refines a map over any run that keeps it held: in the end it is the map it was, updated
      with the members set, in order. Nothing else that happens to the heap shows. */
  lemma {:induction false} RunTable(st: State, ops: seq<Op>, s: Ref)
    requires Sound(st.cells, st.held) && LegalRun(st, ops) && HasTable(st.cells, s) && HeldThroughout(st, ops, s)
    ensures HasTable(Run(st, ops).cells, s)
    ensures AsMap(Table(Run(st, ops).cells, s)) == Updated(AsMap(Table(st.cells, s)), Settings(st, ops, s))
    decreases |ops|
  {
    hide Step, Legal, Sound, AsMap, Put, Entries, KeyText;
    if ops != [] {
      var op, next := ops[0], Step(st, ops[0]);
      StepSound(st, op);
      assert next.held[s] > 0;
      StepTable(st, op, s);
      RunTable(next, ops[1..], s);
      if Sets(st, op, s) {
        var first := Entry(KeyText(st.cells, op.key), op.value);
        TableDistinct(st, s);
        PutIsMapUpdate(Table(st.cells, s), first.key, first.value);
        UpdatedFirst(AsMap(Table(st.cells, s)), first, Settings(next, ops[1..], s));
      }
    }
  }

  lemma {:induction false} TableDistinct(st: State, s: Ref)
    requires Sound(st.cells, st.held) && HasTable(st.cells, s)
    ensures DistinctEntries(Table(st.cells, s))
  {
    assert TableOk(st.cells, st.cells[s].body.slots);
  }

  lemma {:induction false} UpdatedFirst(m: map<seq<byte>, Ref>, first: Entry, rest: seq<Entry>)
    ensures Updated(m, [first] + rest) == Updated(m[first.key := first.value], rest)
  {
    var all := [first] + rest;
    if rest == [] {
      assert all[..0] == [];
    } else {
      assert all[..|all| - 1] == [first] + rest[..|rest| - 1];
      UpdatedFirst(m, first, rest[..|rest| - 1]);
    }
  }

  /** The last value set for a key is the one found: in the table, by a lookup, which hands the caller
      a reference to it, and it is still alive. */
  lemma {:induction false} LastSetIsFound(st: State, ops: seq<Op>, s: Ref, i: nat, key: Ref)
    requires Sound(st.cells, st.held) && LegalRun(st, ops) && HasTable(st.cells, s) && HeldThroughout(st, ops, s)
    requires var sets := Settings(st, ops, s); i < |sets| && forall k | i < k < |sets| :: sets[k].key != sets[i].key
    requires IsString(Run(st, ops).cells, key) && KeyText(Run(st, ops).cells, key) == Settings(st, ops, s)[i].key
    ensures var last, now := Settings(st, ops, s)[i], Run(st, ops);
            && HasTable(now.cells, s) && InUse(now.cells, last.value)
            && Step(now, FindValue(s, key)) == State(Bump(now.cells, last.value), now.held + multiset{last.value})
  {
    hide Step, Run, LegalRun, HeldThroughout, Sound, Entries, KeyText, Settings, AsMap, EntryIndex;
    var sets, now := Settings(st, ops, s), Run(st, ops);
    var last := sets[i];
    RunTable(st, ops, s);
    RunSound(st, ops);
    LastUpdate(AsMap(Table(st.cells, s)), sets, i);
    TableDistinct(now, s);
    AsMapLookup(Table(now.cells, s), last.key);
    EntryInUse(now, s, EntryIndex(Table(now.cells, s), last.key));
    Finds(now, s, key);
  }

  lemma {:induction false} LastUpdate(m: map<seq<byte>, Ref>, sets: seq<Entry>, i: nat)
    requires i < |sets| && forall k | i < k < |sets| :: sets[k].key != sets[i].key
    ensures sets[i].key in Updated(m, sets) && Updated(m, sets)[sets[i].key] == sets[i].value
  {
    if i < |sets| - 1 {
      LastUpdate(m, sets[..|sets| - 1], i);
    }
  }

  lemma {:induction false} EntryInUse(st: State, s: Ref, k: nat)
    requires Sound(st.cells, st.held) && HasTable(st.cells, s) && k < |Table(st.cells, s)|
    ensures InUse(st.cells, Table(st.cells, s)[k].value)
  {
    hide Conserved, WellTyped, KeyText, SlotRefs;
    SlotRefsHas(st.cells[s].body.slots, k);
    NoDangling(st.cells, st.held, s, st.cells[s].body.slots[k].value);
  }

  lemma {:induction false} Finds(st: State, s: Ref, key: Ref)
    requires HasTable(st.cells, s) && IsString(st.cells, key)
    requires var i := EntryIndex(Table(st.cells, s), KeyText(st.cells, key));
             i < |Table(st.cells, s)| && InUse(st.cells, Table(st.cells, s)[i].value)
    ensures var value := Table(st.cells, s)[EntryIndex(Table(st.cells, s), KeyText(st.cells, key))].value;
            Step(st, FindValue(s, key)) == State(Bump(st.cells, value), st.held + multiset{value})
  {
    hide EntryIndex, Entries, KeyText;
  }

  // ---------------------------------------------------------------- paths and cycles

  /** Value `o` is in use and has a slot that points at `r`. */
  predicate Holds(cells: seq<Cell>, o: Ref, r: Ref) { InUse(cells, o) && r in Refs(cells[o].body) }

  predicate IsPath(cells: seq<Cell>, p: seq<Ref>)
  {
    p != [] && forall k | 0 <= k < |p| - 1 :: Holds(cells, p[k], p[k + 1])
  }

  ghost predicate Reaches(cells: seq<Cell>, x: Ref, y: Ref)
  {
    exists p: seq<Ref> :: IsPath(cells, p) && p[0] == x && p[|p| - 1] == y
  }

  /** Values hold only values of lower rank. */
  ghost predicate Ranked(cells: seq<Cell>, rank: seq<nat>)
  {
    && |rank| == |cells|
    && forall o: Ref, r: Ref | Holds(cells, o, r) :: r < |cells| && rank[r] < rank[o]
  }

  ghost predicate Acyclic(cells: seq<Cell>)
  {
    exists rank: seq<nat> :: Ranked(cells, rank)
  }

  predicate AllDead(cells: seq<Cell>)
  {
    forall k | 0 <= k < |cells| :: cells[k].Dead?
  }

  function Highest(rank: seq<nat>): (h: nat)
    ensures forall k | 0 <= k < |rank| :: rank[k] <= h
  {
    if rank == [] then 0
    else
      var h, last := Highest(rank[..|rank| - 1]), rank[|rank| - 1];
      if h < last then last else h
  }

  /** Ranks fall along a path. */
  lemma {:induction false} RankFalls(cells: seq<Cell>, rank: seq<nat>, p: seq<Ref>)
    requires Ranked(cells, rank) && IsPath(cells, p) && p[0] < |cells|
    ensures p[|p| - 1] < |cells| && rank[p[|p| - 1]] <= rank[p[0]]
    decreases |p|
  {
    hide Refs;
    if |p| > 1 {
      assert Holds(cells, p[0], p[1]);
      RankFalls(cells, rank, p[1..]);
    }
  }

  lemma {:induction false} Prolong(cells: seq<Cell>, x: Ref, y: Ref, z: Ref)
    requires Reaches(cells, x, y) && Holds(cells, y, z)
    ensures Reaches(cells, x, z)
  {
    hide Refs;
    var p :| IsPath(cells, p) && p[0] == x && p[|p| - 1] == y;
    assert IsPath(cells, p + [z]);
  }

  lemma {:induction false} Precede(cells: seq<Cell>, x: Ref, y: Ref, z: Ref)
    requires Holds(cells, x, y) && Reaches(cells, y, z)
    ensures Reaches(cells, x, z)
  {
    hide Refs;
    var p :| IsPath(cells, p) && p[0] == y && p[|p| - 1] == z;
    var q := [x] + p;
    forall k | 0 <= k < |q| - 1
      ensures Holds(cells, q[k], q[k + 1])
    {
      if k > 0 {
        assert q[k] == p[k - 1] && q[k + 1] == p[k];
      }
    }
    assert IsPath(cells, q);
  }

  lemma {:induction false} ReachesItself(cells: seq<Cell>, x: Ref)
    ensures Reaches(cells, x, x)
  {
    assert IsPath(cells, [x]);
  }

  // ---------------------------------------------------------------- what is alive

  lemma {:induction false} ReachableInUse(cells: seq<Cell>, held: multiset<Ref>, p: seq<Ref>)
    requires Conserved(cells, held) && IsPath(cells, p) && InUse(cells, p[0])
    ensures InUse(cells, p[|p| - 1])
    decreases |p|
  {
    hide Refs, Conserved;
    if |p| > 1 {
      assert Holds(cells, p[0], p[1]);
      NoDangling(cells, held, p[0], p[1]);
      ReachableInUse(cells, held, p[1..]);
    }
  }

  ghost predicate HeldReaches(cells: seq<Cell>, held: multiset<Ref>, r: Ref)
  {
    exists h: Ref :: held[h] > 0 && Reaches(cells, h, r)
  }

  lemma {:induction false} InUseReachable(cells: seq<Cell>, held: multiset<Ref>, rank: seq<nat>, r: Ref)
    requires Conserved(cells, held) && Ranked(cells, rank) && InUse(cells, r)
    ensures HeldReaches(cells, held, r)
    decreases Highest(rank) - rank[r]
  {
    hide Refs, Reaches;
    if held[r] > 0 {
      ReachesItself(cells, r);
    } else {
      assert Rc(cells, r) == held[r] + SlotCount(cells, r);
      var o := Owner(cells, r);
      InUseReachable(cells, held, rank, o);
      var h: Ref :| held[h] > 0 && Reaches(cells, h, o);
      Prolong(cells, h, o, r);
    }
  }

  /** In a heap without cycles exactly the values that somebody can still reach are alive. */
  lemma {:induction false} AliveIsReachable(cells: seq<Cell>, held: multiset<Ref>, r: Ref)
    requires Conserved(cells, held) && Acyclic(cells)
    ensures InUse(cells, r) <==> HeldReaches(cells, held, r)
  {
    hide Conserved, Ranked, Refs;
    if InUse(cells, r) {
      var rank :| Ranked(cells, rank);
      InUseReachable(cells, held, rank, r);
    }
    if HeldReaches(cells, held, r) {
      var h: Ref :| held[h] > 0 && Reaches(cells, h, r);
      var p :| IsPath(cells, p) && p[0] == h && p[|p| - 1] == r;
      HeldInUse(cells, held, h);
      ReachableInUse(cells, held, p);
    }
  }

  // ---------------------------------------------------------------- leaks

  lemma {:induction false} StaysRanked(before: seq<Cell>, after: seq<Cell>, rank: seq<nat>)
    requires Ranked(before, rank) && |after| == |before|
    requires forall r: Ref | InUse(after, r) :: InUse(before, r) && after[r].body == before[r].body
    ensures Ranked(after, rank)
  {
    forall o: Ref, r: Ref | Holds(after, o, r)
      ensures Holds(before, o, r)
    {
    }
  }

  /** If releasing everything frees everything, there was no cycle: of two values freed, the one
      freed first never sits in the other. */
  lemma {:induction false} FreedIsAcyclic(cells: seq<Cell>, todo: seq<Ref>)
    requires Conserved(cells, multiset(todo)) && AllDead(Release(cells, todo))
    ensures Acyclic(cells)
    decreases TotalRc(cells), |todo|
  {
    hide Refs, Conserved, Ranked;
    if todo == [] {
      assert Ranked(cells, seq(|cells|, k => 0)) by { NobodyInUse(cells); }
    } else {
      var r, rest := todo[0], todo[1..];
      assert todo == [r] + rest;
      assert multiset(todo) == multiset(rest) + multiset{r};
      HeldInUse(cells, multiset(todo), r);
      var c := cells[r];
      var less := Live(c.rc - 1, c.body);
      TotalRcUpdate(cells, r, less);
      TotalRcUpdate(cells, r, Dead);
      if c.rc > 1 {
        LowerCount(cells, multiset(rest), r);
        FreedIsAcyclic(cells[r := less], rest);
        var rank :| Ranked(cells[r := less], rank);
        SameShape(cells[r := less], cells, rank);
      } else {
        FreeCell(cells, multiset(rest), r, Dead);
        assert multiset(rest) + multiset(Refs(c.body)) == multiset(Refs(c.body) + rest);
        FreedIsAcyclic(cells[r := Dead], Refs(c.body) + rest);
        var rank :| Ranked(cells[r := Dead], rank);
        TopRank(cells, multiset(todo), r, rank);
      }
    }
  }

  lemma {:induction false} NobodyInUse(cells: seq<Cell>)
    requires AllDead(cells)
    ensures Ranked(cells, seq(|cells|, k => 0))
  {
  }

  lemma {:induction false} SameShape(before: seq<Cell>, after: seq<Cell>, rank: seq<nat>)
    requires Ranked(before, rank) && |after| == |before|
    requires forall r: Ref | InUse(after, r) :: InUse(before, r) && after[r].body == before[r].body
    ensures Acyclic(after)
  {
    StaysRanked(before, after, rank);
  }

  /** A value whose only reference is from outside sits in no slot: it can be ranked above all. */
  lemma {:induction false} TopRank(cells: seq<Cell>, held: multiset<Ref>, r: Ref, rank: seq<nat>)
    requires Conserved(cells, held) && InUse(cells, r) && cells[r].rc == 1 && held[r] > 0
    requires Ranked(cells[r := Dead], rank)
    ensures Acyclic(cells)
  {
    hide Conserved;
    var rank' := rank[r := Highest(rank) + 1];
    forall o: Ref, x: Ref | Holds(cells, o, x)
      ensures x < |cells| && rank'[x] < rank'[o]
    {
      NoDangling(cells, held, o, x);
      OnlyHeld(cells, held, r, o);
      if o != r {
        assert Holds(cells[r := Dead], o, x);
      }
    }
    assert Ranked(cells, rank');
  }

  lemma {:induction false} OnlyHeld(cells: seq<Cell>, held: multiset<Ref>, r: Ref, o: Ref)
    requires Conserved(cells, held) && InUse(cells, r) && cells[r].rc == 1 && held[r] > 0 && InUse(cells, o)
    ensures r !in Refs(cells[o].body)
  {
    assert Rc(cells, r) == held[r] + SlotCount(cells, r);
    SlotCountIncludes(cells, o, r);
  }

  /** Releasing every reference held frees every value if and only if there is no cycle. */
  lemma {:induction false} NoLeakIffAcyclic(cells: seq<Cell>, todo: seq<Ref>)
    requires Conserved(cells, multiset(todo)) && Settled(cells)
    ensures AllDead(Release(cells, todo)) <==> Acyclic(cells)
  {
    hide Release, Conserved, Ranked;
    var after := Release(cells, todo);
    if AllDead(after) {
      FreedIsAcyclic(cells, todo);
    }
    if Acyclic(cells) {
      var rank :| Ranked(cells, rank);
      ReleaseKeeps(cells, todo);
      StaysRanked(cells, after, rank);
      assert multiset{} + multiset(todo) == multiset(todo);
      ReleaseConserves(cells, multiset{}, todo);
      ReleaseSettled(cells, todo);
      forall k | 0 <= k < |after|
        ensures after[k].Dead?
      {
        if InUse(after, k) {
          AliveIsReachable(after, multiset{}, k);
        }
      }
    }
  }

  // ---------------------------------------------------------------- how cycles come about

  lemma {:induction false} StringReaches(cells: seq<Cell>, r: Ref, s: Ref)
    requires IsString(cells, r) && Reaches(cells, r, s)
    ensures r == s
  {
    var p :| IsPath(cells, p) && p[0] == r && p[|p| - 1] == s;
    assert |p| > 1 ==> Holds(cells, p[0], p[1]);
  }

  /** Between `before` and `after` the only value written to is `s`; what it newly holds is `v` and
      perhaps a string. */
  ghost predicate Linked(before: seq<Cell>, after: seq<Cell>, s: Ref, v: Ref)
  {
    && |after| == |before| && InUse(before, s) && !IsString(before, s) && InUse(before, v)
    && (forall o: Ref | InUse(after, o) && o != s :: InUse(before, o) && after[o].body == before[o].body)
    && (forall r: Ref | Holds(after, s, r) :: Holds(before, s, r) || r == v || IsString(before, r))
    && Holds(after, s, v)
  }

  lemma {:induction false} LinkAcyclic(before: seq<Cell>, after: seq<Cell>, s: Ref, v: Ref)
    requires Linked(before, after, s, v) && Acyclic(before) && !Reaches(before, v, s)
    ensures Acyclic(after)
  {
    hide Reaches;
    var rank :| Ranked(before, rank);
    var lift := Highest(rank) + 1;
    var rank' := seq(|rank|, k requires 0 <= k < |rank| => rank[k] + (if Reaches(before, k, s) then lift else 0));
    ReachesItself(before, s);
    forall o: Ref, r: Ref | Holds(after, o, r)
      ensures r < |after| && rank'[r] < rank'[o]
    {
      if Holds(before, o, r) {
        if Reaches(before, r, s) {
          Precede(before, o, r, s);
        }
      } else {
        assert o == s;
        if r != v && Reaches(before, r, s) {
          StringReaches(before, r, s);
        }
      }
    }
    assert Ranked(after, rank');
  }

  /** A path to `s` that does not touch it before its end. */
  lemma {:induction false} FirstArrival(cells: seq<Cell>, p: seq<Ref>, s: Ref) returns (q: seq<Ref>)
    requires IsPath(cells, p) && p[|p| - 1] == s
    ensures IsPath(cells, q) && q[0] == p[0] && q[|q| - 1] == s
    ensures forall k | 0 <= k < |q| - 1 :: q[k] != s
    decreases |p|
  {
    hide Holds;
    if p[0] == s {
      q := [s];
    } else {
      assert Holds(cells, p[0], p[1]);
      var rest := FirstArrival(cells, p[1..], s);
      q := [p[0]] + rest;
      forall k | 0 <= k < |q| - 1
        ensures Holds(cells, q[k], q[k + 1]) && q[k] != s
      {
        if k > 0 {
          assert q[k] == rest[k - 1] && q[k + 1] == rest[k];
        }
      }
    }
  }

  lemma {:induction false} PathKept(before: seq<Cell>, after: seq<Cell>, held: multiset<Ref>, s: Ref, v: Ref, q: seq<Ref>)
    requires Linked(before, after, s, v) && Conserved(after, held)
    requires IsPath(before, q) && InUse(after, q[0])
    requires forall k | 0 <= k < |q| - 1 :: q[k] != s
    ensures IsPath(after, q)
    decreases |q|
  {
    hide Conserved, Refs;
    if |q| > 1 {
      assert Holds(before, q[0], q[1]);
      assert Holds(after, q[0], q[1]);
      NoDangling(after, held, q[0], q[1]);
      PathKept(before, after, held, s, v, q[1..]);
      assert forall k | 0 < k < |q| - 1 :: Holds(after, q[1..][k - 1], q[1..][k]);
      forall k | 0 <= k < |q| - 1
        ensures Holds(after, q[k], q[k + 1])
      {
        if k > 0 {
          assert q[k] == q[1..][k - 1] && q[k + 1] == q[1..][k];
        }
      }
    }
  }

  /** A new link closes a cycle exactly when the value linked in already reached back. */
  lemma {:induction false} LinkIsAcyclic(before: seq<Cell>, after: seq<Cell>, held: multiset<Ref>, s: Ref, v: Ref)
    requires Linked(before, after, s, v) && Conserved(after, held) && Acyclic(before)
    ensures Acyclic(after) <==> !Reaches(before, v, s)
  {
    hide Conserved, Ranked;
    if !Reaches(before, v, s) {
      LinkAcyclic(before, after, s, v);
    } else {
      var p :| IsPath(before, p) && p[0] == v && p[|p| - 1] == s;
      var q := FirstArrival(before, p, s);
      NoDangling(after, held, s, v);
      PathKept(before, after, held, s, v, q);
      if Acyclic(after) {
        var rank :| Ranked(after, rank);
        RankFalls(after, rank, q);
        assert Holds(after, s, v);
        Below(after, rank, s, v);
      }
    }
  }

  lemma {:induction false} Below(cells: seq<Cell>, rank: seq<nat>, o: Ref, r: Ref)
    requires Ranked(cells, rank) && Holds(cells, o, r)
    ensures r < |cells| && rank[r] < rank[o]
  {
  }

  lemma {:induction false} AppendAcyclic(cells: seq<Cell>, held: multiset<Ref>, a: Ref, item: Ref)
    requires Conserved(cells, held) && HasItems(cells, a) && InUse(cells, item) && Acyclic(cells)
    ensures Acyclic(Appended(cells, a, item)) <==> !Reaches(cells, item, a)
  {
    hide Conserved, Acyclic, Reaches;
    var after := Appended(cells, a, item);
    AppendedConserves(cells, held, a, item);
    forall r: Ref | Holds(after, a, r)
      ensures Holds(cells, a, r) || r == item
    {
    }
    assert after[a].body.items[|cells[a].body.items|] == item;
    LinkIsAcyclic(cells, after, held, a, item);
  }

  lemma {:induction false} ReplacedRefs(slots: seq<Slot>, i: nat, value: Ref, r: Ref)
    requires i < |slots| && r in SlotRefs(slots[i := slots[i].(value := value)])
    ensures r in SlotRefs(slots) || r == value
  {
    hide SlotRefs;
    var slot := slots[i].(value := value);
    SlotRefsReplace(slots, i, slot);
    OneSlot(slot);
    SlotRefsHas(slots, i);
    assert r in multiset(SlotRefs(slots[i := slot])) + multiset(SlotRefs([slots[i]]));
    assert r in multiset(SlotRefs(slots)) + multiset(SlotRefs([slot]));
  }

  lemma {:induction false} AddedRefs(slots: seq<Slot>, slot: Slot, r: Ref)
    requires r in SlotRefs(slots + [slot])
    ensures r in SlotRefs(slots) || r == slot.value || r == slot.key
  {
    hide SlotRefs;
    SlotRefsAppend(slots, [slot]);
    OneSlot(slot);
    if r in SlotRefs([slot]) {
      assert r in multiset(SlotRefs([slot]));
    }
  }

  lemma {:induction false} SetLinks(cells: seq<Cell>, held: multiset<Ref>, s: Ref, key: Ref, value: Ref)
    requires Sound(cells, held) && HasTable(cells, s) && held[s] > 0
    requires InUse(cells, key) && IsString(cells, key) && InUse(cells, value)
    ensures Linked(cells, MemberSet(cells, s, key, value), s, value)
  {
    hide Conserved, Settled, WellTyped, Release, SlotRefs, EntryIndex, Entries;
    var slots := cells[s].body.slots;
    var i := EntryIndex(Entries(cells, slots), KeyText(cells, key));
    var after := MemberSet(cells, s, key, value);
    MemberSetSound(cells, held, s, key, value);
    HeldInUse(after, held, s);
    if i < |slots| {
      var slots' := slots[i := slots[i].(value := value)];
      ReleaseKeeps(Rebody(Bump(cells, value), s, BStruct(slots')), [slots[i].value]);
      assert after[s].body == BStruct(slots');
      SlotRefsHas(slots', i);
      forall r: Ref | Holds(after, s, r)
        ensures Holds(cells, s, r) || r == value
      {
        ReplacedRefs(slots, i, value, r);
      }
    } else {
      var slot := Slot(Hash(KeyText(cells, key)), key, value);
      assert after[s].body == BStruct(slots + [slot]);
      SlotRefsHas(slots + [slot], |slots|);
      forall r: Ref | Holds(after, s, r)
        ensures Holds(cells, s, r) || r == value || r == key
      {
        AddedRefs(slots, slot, r);
      }
    }
  }

  lemma {:induction false} SetAcyclic(cells: seq<Cell>, held: multiset<Ref>, s: Ref, key: Ref, value: Ref)
    requires Sound(cells, held) && HasTable(cells, s) && held[s] > 0
    requires InUse(cells, key) && IsString(cells, key) && InUse(cells, value) && Acyclic(cells)
    ensures Acyclic(MemberSet(cells, s, key, value)) <==> !Reaches(cells, value, s)
  {
    hide Conserved, Settled, WellTyped, Acyclic, Reaches, MemberSet, Linked;
    SetLinks(cells, held, s, key, value);
    MemberSetSound(cells, held, s, key, value);
    LinkIsAcyclic(cells, MemberSet(cells, s, key, value), held, s, value);
  }

  // ---------------------------------------------------------------- no leak over whole runs

  /** The caller never puts a value into something that value already contains. */
  ghost predicate Careful(st: State, op: Op)
  {
    match op
    case Append(a, item) => !Reaches(st.cells, item, a)
    case SetValue(s, _, value) => !Reaches(st.cells, value, s)
    case _ => true
  }

  ghost predicate CarefulRun(st: State, ops: seq<Op>)
    decreases |ops|
  {
    ops == [] || (Careful(st, ops[0]) && CarefulRun(Step(st, ops[0]), ops[1..]))
  }

  lemma {:induction false} TakenAcyclic(st: State, r: Ref)
    requires Acyclic(st.cells)
    ensures Acyclic(Taken(st, r).cells)
  {
    hide Ranked;
    if InUse(st.cells, r) {
      var rank :| Ranked(st.cells, rank);
      StaysRanked(st.cells, Taken(st, r).cells, rank);
    }
  }

  lemma {:induction false} ReleaseAcyclic(cells: seq<Cell>, todo: seq<Ref>)
    requires Acyclic(cells)
    ensures Acyclic(Release(cells, todo))
  {
    hide Ranked, Release;
    var rank :| Ranked(cells, rank);
    ReleaseKeeps(cells, todo);
    StaysRanked(cells, Release(cells, todo), rank);
  }

  lemma {:induction false} NewAcyclic(cells: seq<Cell>, body: Body)
    requires Acyclic(cells) && Refs(body) == []
    ensures Acyclic(cells + [Live(1, body)])
  {
    var rank :| Ranked(cells, rank);
    var after := cells + [Live(1, body)];
    forall o: Ref, r: Ref | Holds(after, o, r)
      ensures Holds(cells, o, r)
    {
    }
    assert Ranked(after, rank + [0]);
  }

  lemma {:induction false} StepAcyclic(st: State, op: Op)
    requires Sound(st.cells, st.held) && Acyclic(st.cells) && Legal(st, op) && Careful(st, op)
    ensures Acyclic(Step(st, op).cells)
  {
    hide Conserved, Settled, WellTyped, Acyclic, Reaches, Release, MemberSet, EntryIndex, Entries, Refs;
    var cells, held := st.cells, st.held;
    match op {
      case Make(body) => NewAcyclic(cells, body);
      case Share(r) => TakenAcyclic(st, r);
      case Drop(r) => ReleaseAcyclic(cells, [r]);
      case Append(a, item) =>
        if HasItems(cells, a) && InUse(cells, item) {
          AppendAcyclic(cells, held, a, item);
        }
      case ReadItem(a, index) =>
        if HasItems(cells, a) && index < |cells[a].body.items| {
          TakenAcyclic(st, cells[a].body.items[index]);
        }
      case FindValue(s, key) =>
        if HasTable(cells, s) && IsString(cells, key) {
          var es := Entries(cells, cells[s].body.slots);
          var i := EntryIndex(es, KeyText(cells, key));
          if i < |es| {
            TakenAcyclic(st, es[i].value);
          }
        }
      case SetValue(s, key, value) =>
        if HasTable(cells, s) && InUse(cells, key) && IsString(cells, key) && InUse(cells, value) {
          SetAcyclic(cells, held, s, key, value);
        }
    }
  }

  lemma {:induction false} RunAcyclic(st: State, ops: seq<Op>)
    requires Sound(st.cells, st.held) && Acyclic(st.cells) && LegalRun(st, ops) && CarefulRun(st, ops)
    ensures Sound(Run(st, ops).cells, Run(st, ops).held) && Acyclic(Run(st, ops).cells)
    decreases |ops|
  {
    hide Sound, Acyclic, Step, Careful;
    if ops != [] {
      StepSound(st, ops[0]);
      StepAcyclic(st, ops[0]);
      RunAcyclic(Step(st, ops[0]), ops[1..]);
    }
  }

  /** After any run that builds no cycle, releasing whatever is still held, in any order, leaves no
      value alive. */
  lemma {:induction false} NoLeak(ops: seq<Op>, todo: seq<Ref>)
    requires LegalRun(State([], multiset{}), ops) && CarefulRun(State([], multiset{}), ops)
    requires multiset(todo) == Run(State([], multiset{}), ops).held
    ensures AllDead(Release(Run(State([], multiset{}), ops).cells, todo))
  {
    hide Run, LegalRun, CarefulRun, Release, Conserved;
    var start := State([], multiset{});
    assert Sound([], multiset{}) by { EmptySound(); }
    assert Ranked([], []);
    RunAcyclic(start, ops);
    NoLeakIffAcyclic(Run(start, ops).cells, todo);
  }

  lemma {:induction false} EmptySound()
    ensures Sound([], multiset{})
  {
  }

  /** The smallest leak: an array appended to itself outlives its last reference. */
  lemma {:induction false} ArrayInItselfLeaks()
    ensures var ops := [Make(BArray([])), Append(0, 0), Drop(0)];
            && LegalRun(State([], multiset{}), ops)
            && Run(State([], multiset{}), ops) == State([Live(1, BArray([0]))], multiset{})
  {
    var made := State([Live(1, BArray([]))], multiset{0});
    var appended := State([Live(2, BArray([0]))], multiset{0});
    var dropped := State([Live(1, BArray([0]))], multiset{});
    var append, drop: Op := Append(0, 0), Drop(0);
    assert Step(State([], multiset{}), Make(BArray([]))) == made;
    assert Step(made, append) == appended by {
      assert Bump(made.cells, 0) == [Live(2, BArray([]))];
      assert [] + [0] == [0];
      assert Appended(made.cells, 0, 0) == appended.cells;
    }
    assert Release(appended.cells, [0]) == dropped.cells by {
      assert [0][1..] == [];
      assert Release(dropped.cells, []) == dropped.cells;
    }
    assert Step(appended, drop) == dropped;
    assert [append, drop][1..] == [drop] && [drop][1..] == [];
    assert Run(dropped, []) == dropped;
    assert Run(appended, [drop]) == dropped;
    assert Run(made, [append, drop]) == dropped;
    assert [Make(BArray([])), append, drop][1..] == [append, drop];
    assert LegalRun(appended, [drop]);
    assert LegalRun(made, [append, drop]);
  }
}
