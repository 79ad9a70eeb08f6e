/**
 Recoverable memory (project4/rvm.c): segments mapped from files, ranges declared before they are
 written, commit, abort and crash. The range-by-range implementation refines a store whose commit
 copies the whole memory of a segment to disk.

 A call runs to its end or not at all: a crash falls between calls. Reads and writes of files
 transfer everything they are asked to.
 */
module Rvm {
  import opened Bytes

  const MAXSEGS := 30
  const MAX_RANGES := 10

  datatype Range = Range(offset: nat, size: nat)

  /** A mapped segment; `base` is the address of its memory. */
  datatype Segment = Segment(base: nat, name: string, data: seq<byte>, ranges: seq<Range>)

  type Files = map<string, seq<byte>>

  datatype Store = Store(files: Files, mapped: seq<Segment>)

  // ---------------------------------------------------------------- files

  /** The file filled up with NULs to the size asked for. */
  function Padded(file: seq<byte>, size: nat): (padded: seq<byte>)
    ensures |file| <= size ==> |padded| == size
  {
    if |file| <= size then file + Zeros(size - |file|) else file
  }

  /** Writing at a position inside a file. */
  function Overwrite(file: seq<byte>, at: nat, bytes: seq<byte>): (after: seq<byte>)
    requires at + |bytes| <= |file|
    ensures |after| == |file|
    ensures forall k | 0 <= k < |file| :: after[k] == if at <= k < at + |bytes| then bytes[k - at] else file[k]
  {
    file[..at] + bytes + file[at + |bytes|..]
  }

  predicate Within(range: Range, size: nat) { range.offset + range.size <= size }

  /** write_segment: every declared range goes to the file, counted from its end. */
  function WriteRanges(file: seq<byte>, data: seq<byte>, ranges: seq<Range>): (after: seq<byte>)
    requires |file| == |data|
    requires forall k | 0 <= k < |ranges| :: Within(ranges[k], |data|)
    ensures |after| == |file|
  {
    if ranges == [] then file
    else
      var last := ranges[|ranges| - 1];
      assert Within(last, |data|);
      Overwrite(WriteRanges(file, data, ranges[..|ranges| - 1]), |file| - |data| + last.offset,
                data[last.offset..last.offset + last.size])
  }

  predicate Declared(ranges: seq<Range>, k: int)
  {
    exists r | 0 <= r < |ranges| :: ranges[r].offset <= k < ranges[r].offset + ranges[r].size
  }

  lemma {:induction false} DeclaredLast(ranges: seq<Range>, k: int)
    requires ranges != []
    ensures var last := ranges[|ranges| - 1];
            Declared(ranges, k) <==> Declared(ranges[..|ranges| - 1], k) || last.offset <= k < last.offset + last.size
  {
    var init := ranges[..|ranges| - 1];
    if Declared(init, k) {
      var r :| 0 <= r < |init| && init[r].offset <= k < init[r].offset + init[r].size;
      assert ranges[r] == init[r];
    }
    if Declared(ranges, k) {
      var r :| 0 <= r < |ranges| && ranges[r].offset <= k < ranges[r].offset + ranges[r].size;
      assert r < |init| ==> init[r] == ranges[r];
    }
  }

  lemma {:induction false} WrittenNext(file: seq<byte>, data: seq<byte>, ranges: seq<Range>, i: nat)
    requires |file| == |data| && i < |ranges|
    requires forall r | 0 <= r < |ranges| :: Within(ranges[r], |data|)
    ensures WriteRanges(file, data, ranges[..i + 1])
         == Overwrite(WriteRanges(file, data, ranges[..i]), ranges[i].offset,
                      data[ranges[i].offset..ranges[i].offset + ranges[i].size])
  {
    hide Overwrite;
    assert ranges[..i + 1][..i] == ranges[..i];
    assert forall r | 0 <= r < |ranges[..i + 1]| :: ranges[..i + 1][r] == ranges[r];
  }

  /** A byte of the file after the ranges are written: memory's if declared, else the file's. */
  lemma {:induction false} WrittenByte(file: seq<byte>, data: seq<byte>, ranges: seq<Range>, k: nat)
    requires |file| == |data| && k < |data|
    requires forall r | 0 <= r < |ranges| :: Within(ranges[r], |data|)
    ensures WriteRanges(file, data, ranges)[k] == if Declared(ranges, k) then data[k] else file[k]
  {
    hide Declared, Overwrite, WriteRanges;
    if ranges == [] {
      NoneDeclared(k);
      NoRanges(file, data);
    } else {
      var i := |ranges| - 1;
      assert Within(ranges[i], |data|) && forall r | 0 <= r < i :: Within(ranges[..i][r], |data|);
      WrittenByte(file, data, ranges[..i], k);
      DeclaredLast(ranges, k);
      assert ranges[..i + 1] == ranges;
      WrittenNext(file, data, ranges, i);
    }
  }

  lemma {:induction false} NoneDeclared(k: int)
    ensures !Declared([], k)
  {
  }

  // ---------------------------------------------------------------- the invariant

  /** Memory and file are of one size and differ only where a range was declared. */
  ghost predicate SegmentOk(files: Files, s: Segment)
  {
    && s.name in files && |files[s.name]| == |s.data| && |s.ranges| <= MAX_RANGES
    && (forall r | 0 <= r < |s.ranges| :: Within(s.ranges[r], |s.data|))
    && (forall k | 0 <= k < |s.data| :: !Declared(s.ranges, k) ==> s.data[k] == files[s.name][k])
  }

  ghost predicate Inv(st: Store)
  {
    && |st.mapped| <= MAXSEGS
    && (forall i | 0 <= i < |st.mapped| :: SegmentOk(st.files, st.mapped[i]))
    && (forall i, j | 0 <= i < j < |st.mapped| ::
          st.mapped[i].name != st.mapped[j].name && st.mapped[i].base != st.mapped[j].base)
  }

  /** Committing a segment makes its file equal its memory. */
  lemma {:induction false} CommitIsCopy(files: Files, s: Segment)
    requires SegmentOk(files, s)
    ensures WriteRanges(files[s.name], s.data, s.ranges) == s.data
  {
    hide Declared;
    var after := WriteRanges(files[s.name], s.data, s.ranges);
    forall k | 0 <= k < |s.data|
      ensures after[k] == s.data[k]
    {
      WrittenByte(files[s.name], s.data, s.ranges, k);
    }
  }

  // ---------------------------------------------------------------- the operations

  datatype Op =
    | Map(name: string, size: nat, base: nat)
    | AboutToModify(base: nat, range: Range)
    | Modify(base: nat, offset: nat, bytes: seq<byte>)
    | Commit(bases: seq<nat>)
    | Abort(bases: seq<nat>)
    | Crash

  /** The first segment at an address, or the number of segments. */
  function Find(mapped: seq<Segment>, base: nat): (i: nat)
    ensures i <= |mapped|
    ensures i < |mapped| ==> mapped[i].base == base
    ensures forall k | 0 <= k < i :: mapped[k].base != base
  {
    FirstIndex(mapped, (s: Segment) => s.base == base)
  }

  predicate IsMapped(mapped: seq<Segment>, name: string)
  {
    exists i | 0 <= i < |mapped| :: mapped[i].name == name
  }

  function FileOf(files: Files, name: string): seq<byte> { if name in files then files[name] else [] }

  function Mapped(st: Store, name: string, size: nat, base: nat): Store
  {
    if |st.mapped| == MAXSEGS then st
    else if IsMapped(st.mapped, name) then st.(files := st.files[name := FileOf(st.files, name)])
    else
      var data := Padded(FileOf(st.files, name), size);
      Store(st.files[name := data], st.mapped + [Segment(base, name, data, [])])
  }

  function Ranged(st: Store, base: nat, range: Range): Store
  {
    var i := Find(st.mapped, base);
    if i == |st.mapped| then st
    else st.(mapped := st.mapped[i := st.mapped[i].(ranges := st.mapped[i].ranges + [range])])
  }

  function Modified(st: Store, base: nat, offset: nat, bytes: seq<byte>): Store
  {
    var i := Find(st.mapped, base);
    if i == |st.mapped| || offset + |bytes| > |st.mapped[i].data| then st
    else st.(mapped := st.mapped[i := st.mapped[i].(data := Overwrite(st.mapped[i].data, offset, bytes))])
  }

  function CommitOne(st: Store, base: nat): Store
  {
    var i := Find(st.mapped, base);
    if i == |st.mapped| then st
    else
      var s := st.mapped[i];
      var file := FileOf(st.files, s.name);
      if |file| == |s.data| && forall r | 0 <= r < |s.ranges| :: Within(s.ranges[r], |s.data|)
      then st.(files := st.files[s.name := WriteRanges(file, s.data, s.ranges)]) else st
  }

  function Committed(st: Store, bases: seq<nat>): Store
  {
    if bases == [] then st else CommitOne(Committed(st, bases[..|bases| - 1]), bases[|bases| - 1])
  }

  function AbortOne(st: Store, base: nat): Store
  {
    var i := Find(st.mapped, base);
    if i == |st.mapped| then st
    else st.(mapped := st.mapped[i := st.mapped[i].(data := FileOf(st.files, st.mapped[i].name))])
  }

  function Aborted(st: Store, bases: seq<nat>): Store
  {
    if bases == [] then st else AbortOne(Aborted(st, bases[..|bases| - 1]), bases[|bases| - 1])
  }

  function Step(st: Store, op: Op): Store
  {
    match op
    case Map(name, size, base) => Mapped(st, name, size, base)
    case AboutToModify(base, range) => Ranged(st, base, range)
    case Modify(base, offset, bytes) => Modified(st, base, offset, bytes)
    case Commit(bases) => Committed(st, bases)
    case Abort(bases) => Aborted(st, bases)
    case Crash => st.(mapped := [])
  }

  /** What callers owe: a file no longer than the size asked for, a new address from mmap, at most ten
      ranges, inside the segment, and memory written only where declared. */
  ghost predicate Legal(st: Store, op: Op)
  {
    match op
    case Map(name, size, base) => |FileOf(st.files, name)| <= size && Find(st.mapped, base) == |st.mapped|
    case AboutToModify(base, range) =>
      var i := Find(st.mapped, base);
      i < |st.mapped| ==> Within(range, |st.mapped[i].data|) && |st.mapped[i].ranges| < MAX_RANGES
    case Modify(base, offset, bytes) =>
      var i := Find(st.mapped, base);
      && i < |st.mapped| && offset + |bytes| <= |st.mapped[i].data|
      && forall k | offset <= k < offset + |bytes| :: Declared(st.mapped[i].ranges, k)
    case _ => true
  }

  // ---------------------------------------------------------------- the store it refines

  /** What is on disk, and the memory of the mapped segments; there are no ranges. */
  datatype Memory = Memory(base: nat, name: string, data: seq<byte>)
  datatype Spec = Spec(disk: Files, memory: seq<Memory>)

  function Plain(s: Segment): Memory { Memory(s.base, s.name, s.data) }

  function View(st: Store): Spec
  {
    Spec(st.files, seq(|st.mapped|, k requires 0 <= k < |st.mapped| => Plain(st.mapped[k])))
  }

  function FindMemory(memory: seq<Memory>, base: nat): (i: nat)
    ensures i <= |memory|
    ensures i < |memory| ==> memory[i].base == base
    ensures forall k | 0 <= k < i :: memory[k].base != base
  {
    FirstIndex(memory, (m: Memory) => m.base == base)
  }

  /** Commit copies a segment's memory to disk, abort copies the disk to memory, mapping reads the
      disk, and a crash forgets the memory. Declaring a range does nothing. */
  function SpecStep(sp: Spec, op: Op): Spec
  {
    match op
    case Map(name, size, base) =>
      if |sp.memory| == MAXSEGS then sp
      else if exists i | 0 <= i < |sp.memory| :: sp.memory[i].name == name then sp.(disk := sp.disk[name := FileOf(sp.disk, name)])
      else
        var data := Padded(FileOf(sp.disk, name), size);
        Spec(sp.disk[name := data], sp.memory + [Memory(base, name, data)])
    case AboutToModify(_, _) => sp
    case Modify(base, offset, bytes) =>
      var i := FindMemory(sp.memory, base);
      if i == |sp.memory| || offset + |bytes| > |sp.memory[i].data| then sp
      else sp.(memory := sp.memory[i := sp.memory[i].(data := Overwrite(sp.memory[i].data, offset, bytes))])
    case Commit(bases) => CopyOut(sp, bases)
    case Abort(bases) => CopyIn(sp, bases)
    case Crash => sp.(memory := [])
  }

  function CopyOut(sp: Spec, bases: seq<nat>): Spec
  {
    if bases == [] then sp
    else
      var before := CopyOut(sp, bases[..|bases| - 1]);
      var i := FindMemory(before.memory, bases[|bases| - 1]);
      if i == |before.memory| then before
      else before.(disk := before.disk[before.memory[i].name := before.memory[i].data])
  }

  function CopyIn(sp: Spec, bases: seq<nat>): Spec
  {
    if bases == [] then sp
    else
      var before := CopyIn(sp, bases[..|bases| - 1]);
      var i := FindMemory(before.memory, bases[|bases| - 1]);
      if i == |before.memory| then before
      else before.(memory := before.memory[i := before.memory[i].(data := FileOf(before.disk, before.memory[i].name))])
  }

  // ---------------------------------------------------------------- every step refines

  lemma {:induction false} FindMemoryIs(memory: seq<Memory>, base: nat, i: nat)
    requires i <= |memory| && (i < |memory| ==> memory[i].base == base)
    requires forall k | 0 <= k < i :: memory[k].base != base
    ensures FindMemory(memory, base) == i
  {
    hide FindMemory;
  }

  lemma {:induction false} FindSame(st: Store, base: nat)
    ensures FindMemory(View(st).memory, base) == Find(st.mapped, base)
  {
    hide FindMemory, Find;
    FindMemoryIs(View(st).memory, base, Find(st.mapped, base));
  }

  lemma {:induction false} MapRefines(st: Store, name: string, size: nat, base: nat)
    requires Inv(st) && Legal(st, Map(name, size, base))
    ensures Inv(Mapped(st, name, size, base))
    ensures View(Mapped(st, name, size, base)) == SpecStep(View(st), Map(name, size, base))
  {
    hide Declared, Padded, Find;
    var after := Mapped(st, name, size, base);
    assert forall i | 0 <= i < |st.mapped| :: View(st).memory[i].name == st.mapped[i].name;
    if |st.mapped| < MAXSEGS && !IsMapped(st.mapped, name) {
      assert View(after).memory == View(st).memory + [Memory(base, name, after.files[name])];
    }
  }

  lemma {:induction false} RangeRefines(st: Store, base: nat, range: Range)
    requires Inv(st) && Legal(st, AboutToModify(base, range))
    ensures Inv(Ranged(st, base, range)) && View(Ranged(st, base, range)) == View(st)
  {
    hide Declared, Find;
    var i := Find(st.mapped, base);
    if i < |st.mapped| {
      var s := st.mapped[i];
      forall k | 0 <= k < |s.data| && Declared(s.ranges, k)
        ensures Declared(s.ranges + [range], k)
      {
        MoreDeclared(s.ranges, range, k);
      }
      assert SegmentOk(st.files, Ranged(st, base, range).mapped[i]);
      assert View(Ranged(st, base, range)).memory == View(st).memory;
    }
  }

  lemma {:induction false} MoreDeclared(ranges: seq<Range>, range: Range, k: int)
    requires Declared(ranges, k)
    ensures Declared(ranges + [range], k)
  {
    var r :| 0 <= r < |ranges| && ranges[r].offset <= k < ranges[r].offset + ranges[r].size;
    assert (ranges + [range])[r] == ranges[r];
  }

  lemma {:induction false} ModifyRefines(st: Store, base: nat, offset: nat, bytes: seq<byte>)
    requires Inv(st) && Legal(st, Modify(base, offset, bytes))
    ensures Inv(Modified(st, base, offset, bytes))
    ensures View(Modified(st, base, offset, bytes)) == SpecStep(View(st), Modify(base, offset, bytes))
  {
    hide Declared, Find, FindMemory;
    FindSame(st, base);
    var i := Find(st.mapped, base);
    var after := Modified(st, base, offset, bytes);
    assert SegmentOk(st.files, after.mapped[i]);
    assert View(after).memory == SpecStep(View(st), Modify(base, offset, bytes)).memory;
  }

  lemma {:induction false} CommitOneRefines(st: Store, base: nat)
    requires Inv(st)
    ensures Inv(CommitOne(st, base))
    ensures var i, after := Find(st.mapped, base), CommitOne(st, base);
            && after.mapped == st.mapped
            && after.files == if i == |st.mapped| then st.files else st.files[st.mapped[i].name := st.mapped[i].data]
  {
    hide Declared, Find, WriteRanges;
    var i := Find(st.mapped, base);
    if i < |st.mapped| {
      assert SegmentOk(st.files, st.mapped[i]);
      CommitIsCopy(st.files, st.mapped[i]);
    }
  }

  lemma {:induction false} CommitRefines(st: Store, bases: seq<nat>)
    requires Inv(st)
    ensures Inv(Committed(st, bases)) && View(Committed(st, bases)) == CopyOut(View(st), bases)
  {
    hide CommitOne, Inv, FindMemory, Find;
    if bases != [] {
      CommitRefines(st, bases[..|bases| - 1]);
      var before := Committed(st, bases[..|bases| - 1]);
      CommitOneRefines(before, bases[|bases| - 1]);
      FindSame(before, bases[|bases| - 1]);
      assert View(CommitOne(before, bases[|bases| - 1])).memory == View(before).memory;
    }
  }

  lemma {:induction false} AbortOneInv(st: Store, base: nat)
    requires Inv(st)
    ensures Inv(AbortOne(st, base))
  {
    hide Declared, Find;
    var i := Find(st.mapped, base);
    if i < |st.mapped| {
      assert SegmentOk(st.files, st.mapped[i]);
      assert SegmentOk(st.files, AbortOne(st, base).mapped[i]);
    }
  }

  lemma {:induction false} AbortRefines(st: Store, bases: seq<nat>)
    requires Inv(st)
    ensures Inv(Aborted(st, bases)) && View(Aborted(st, bases)) == CopyIn(View(st), bases)
  {
    hide Inv, FindMemory, Find;
    if bases != [] {
      AbortRefines(st, bases[..|bases| - 1]);
      var before := Aborted(st, bases[..|bases| - 1]);
      var base := bases[|bases| - 1];
      AbortOneInv(before, base);
      FindSame(before, base);
      assert View(AbortOne(before, base)).memory == CopyIn(View(st), bases).memory;
    }
  }

  lemma {:induction false} StepRefines(st: Store, op: Op)
    requires Inv(st) && Legal(st, op)
    ensures Inv(Step(st, op)) && View(Step(st, op)) == SpecStep(View(st), op)
  {
    hide Inv, Mapped, Ranged, Modified, Committed, Aborted, CopyOut, CopyIn;
    match op {
      case Map(name, size, base) => MapRefines(st, name, size, base);
      case AboutToModify(base, range) => RangeRefines(st, base, range);
      case Modify(base, offset, bytes) => ModifyRefines(st, base, offset, bytes);
      case Commit(bases) => CommitRefines(st, bases);
      case Abort(bases) => AbortRefines(st, bases);
      case Crash => CrashInv(st);
    }
  }

  lemma {:induction false} CrashInv(st: Store)
    ensures Inv(st.(mapped := [])) && View(st.(mapped := [])).memory == []
  {
  }

  function Run(st: Store, ops: seq<Op>): Store
    decreases |ops|
  {
    if ops == [] then st else Run(Step(st, ops[0]), ops[1..])
  }

  function SpecRun(sp: Spec, ops: seq<Op>): Spec
    decreases |ops|
  {
    if ops == [] then sp else SpecRun(SpecStep(sp, ops[0]), ops[1..])
  }

  ghost predicate LegalRun(st: Store, ops: seq<Op>)
    decreases |ops|
  {
    ops == [] || (Legal(st, ops[0]) && LegalRun(Step(st, ops[0]), ops[1..]))
  }

  /** Over any run, crashes included, writing back only the declared ranges is as good as writing back
      the whole memory at every commit. */
  lemma {:induction false} RunRefines(st: Store, ops: seq<Op>)
    requires Inv(st) && LegalRun(st, ops)
    ensures Inv(Run(st, ops)) && View(Run(st, ops)) == SpecRun(View(st), ops)
    decreases |ops|
  {
    hide Inv, Step, SpecStep, Legal, View;
    if ops != [] {
      StepRefines(st, ops[0]);
      RunRefines(Step(st, ops[0]), ops[1..]);
    }
  }

  /** A commit writes the files of the segments it names, and no others. */
  lemma {:induction false} CommitWritesFiles(st: Store, bases: seq<nat>, name: string)
    requires Inv(st) && name in st.files
    ensures var after := Committed(st, bases);
            && Inv(after) && after.mapped == st.mapped && name in after.files
            && (forall i | 0 <= i < |st.mapped| && st.mapped[i].name == name ::
                  after.files[name] == if st.mapped[i].base in bases then st.mapped[i].data else st.files[name])
            && (!IsMapped(st.mapped, name) ==> after.files[name] == st.files[name])
  {
    hide CommitOne, Inv, Find;
    if bases != [] {
      var init, last := bases[..|bases| - 1], bases[|bases| - 1];
      CommitWritesFiles(st, init, name);
      var before := Committed(st, init);
      CommitOneRefines(before, last);
      assert bases == init + [last];
      forall i | 0 <= i < |st.mapped| && st.mapped[i].name == name
        ensures CommitOne(before, last).files[name]
             == if st.mapped[i].base in bases then st.mapped[i].data else st.files[name]
      {
        FoundAt(before, last, i);
        if Find(st.mapped, last) < |st.mapped| {
          OneOfAName(before, Find(st.mapped, last), i);
        }
      }
    }
  }

  lemma {:induction false} OneOfAName(st: Store, i: nat, j: nat)
    requires Inv(st) && i < |st.mapped| && j < |st.mapped|
    ensures st.mapped[i].name == st.mapped[j].name <==> i == j
  {
    hide SegmentOk;
  }

  /** The file holds these bytes, perhaps filled up with NULs since. */
  predicate Holds(files: Files, name: string, data: seq<byte>)
  {
    name in files && |files[name]| >= |data| && files[name] == data + Zeros(|files[name]| - |data|)
  }

  /** The operation is not a commit of the segment mapped from the file. */
  predicate Spares(st: Store, op: Op, name: string)
  {
    op.Commit? ==> forall i | 0 <= i < |st.mapped| && st.mapped[i].name == name :: st.mapped[i].base !in op.bases
  }

  predicate SparesAll(st: Store, ops: seq<Op>, name: string)
    decreases |ops|
  {
    ops == [] || (Spares(st, ops[0], name) && SparesAll(Step(st, ops[0]), ops[1..], name))
  }

  lemma {:induction false} StepSpares(st: Store, op: Op, name: string, data: seq<byte>)
    requires Inv(st) && Legal(st, op) && Spares(st, op, name) && Holds(st.files, name, data)
    ensures Holds(Step(st, op).files, name, data)
  {
    hide Inv, Find, Committed, Aborted;
    match op {
      case Commit(bases) =>
        CommitWritesFiles(st, bases, name);
      case Abort(bases) => AbortKeepsDisk(st, bases);
      case Map(other, size, base) =>
        if other == name {
          PaddedMore(data, |st.files[name]|, size);
        }
      case _ =>
    }
  }

  lemma {:induction false} PaddedMore(data: seq<byte>, size: nat, larger: nat)
    requires |data| <= size <= larger
    ensures Padded(data + Zeros(size - |data|), larger) == Padded(data, larger) == data + Zeros(larger - |data|)
  {
  }

  lemma {:induction false} RunSpares(st: Store, ops: seq<Op>, name: string, data: seq<byte>)
    requires Inv(st) && LegalRun(st, ops) && SparesAll(st, ops, name) && Holds(st.files, name, data)
    ensures Inv(Run(st, ops)) && Holds(Run(st, ops).files, name, data)
    decreases |ops|
  {
    hide Inv, Step, Legal, Spares, Holds;
    if ops != [] {
      StepSpares(st, ops[0], name, data);
      StepRefines(st, ops[0]);
      RunSpares(Step(st, ops[0]), ops[1..], name, data);
    }
  }

  /** What outlives crashes: after a commit of a segment, among others perhaps, and any run, with
      crashes and mappings and other commits, that does not commit that segment again, mapping its
      file yields the bytes that were committed. */
  lemma {:induction false} Recovery(st: Store, bases: seq<nat>, i: nat, others: seq<Op>, size: nat, base: nat)
    requires Inv(st) && i < |st.mapped| && st.mapped[i].base in bases
    requires LegalRun(Step(st, Commit(bases)), others)
    requires SparesAll(Step(st, Commit(bases)), others, st.mapped[i].name)
    requires var now := Run(Step(st, Commit(bases)), others);
             && Legal(now, Map(st.mapped[i].name, size, base))
             && |now.mapped| < MAXSEGS && !IsMapped(now.mapped, st.mapped[i].name)
    ensures var s, now := st.mapped[i], Run(Step(st, Commit(bases)), others);
            var again := Step(now, Map(s.name, size, base));
            && |again.mapped| == |now.mapped| + 1 && Find(again.mapped, base) == |now.mapped|
            && size >= |s.data| && again.mapped[|now.mapped|] == Segment(base, s.name, s.data + Zeros(size - |s.data|), [])
  {
    hide Inv, Padded, Find, Committed, SparesAll;
    var s, committed := st.mapped[i], Step(st, Commit(bases));
    assert s.name in st.files by { FileFits(st, i); }
    CommitWritesFiles(st, bases, s.name);
    assert s.data + Zeros(0) == s.data;
    RunSpares(committed, others, s.name, s.data);
    var now := Run(committed, others);
    PaddedMore(s.data, |now.files[s.name]|, size);
    FindIs(Step(now, Map(s.name, size, base)).mapped, base, |now.mapped|);
  }

  /** In particular after a crash, when nothing is mapped. */
  lemma {:induction false} CrashRecovery(st: Store, bases: seq<nat>, i: nat, others: seq<Op>, size: nat, base: nat)
    requires Inv(st) && i < |st.mapped| && st.mapped[i].base in bases
    requires LegalRun(Step(st, Commit(bases)), others)
    requires SparesAll(Step(st, Commit(bases)), others, st.mapped[i].name)
    ensures var s, crashed := st.mapped[i], Step(Run(Step(st, Commit(bases)), others), Crash);
            && s.name in crashed.files && |crashed.files[s.name]| >= |s.data|
            && (size >= |crashed.files[s.name]| ==>
                  && Legal(crashed, Map(s.name, size, base))
                  && Step(crashed, Map(s.name, size, base)).mapped
                     == [Segment(base, s.name, s.data + Zeros(size - |s.data|), [])])
  {
    hide Inv, Padded, Find, Committed, SparesAll;
    var s, committed := st.mapped[i], Step(st, Commit(bases));
    assert s.name in st.files by { FileFits(st, i); }
    CommitWritesFiles(st, bases, s.name);
    assert s.data + Zeros(0) == s.data;
    RunSpares(committed, others, s.name, s.data);
    var length := |Run(committed, others).files[s.name]|;
    if size >= length {
      PaddedMore(s.data, length, size);
      FindIs([], base, 0);
    }
  }

  /** What a declared range is for: bytes written inside it reach the file at the next commit, and nothing
      else of the file changes then but what was written before. */
  lemma {:induction false} DeclaredIsWritten(st: Store, i: nat, range: Range, offset: nat, bytes: seq<byte>)
    requires Inv(st) && i < |st.mapped| && Legal(st, AboutToModify(st.mapped[i].base, range))
    requires range.offset <= offset && offset + |bytes| <= range.offset + range.size
    ensures var s := st.mapped[i];
            var declared := Step(st, AboutToModify(s.base, range));
            var write := Modify(s.base, offset, bytes);
            && Legal(declared, write)
            && Within(range, |s.data|)
            && var after := Step(Step(declared, write), Commit([s.base]));
               && i < |after.mapped| && after.mapped[i].data == Overwrite(s.data, offset, bytes)
               && s.name in after.files && after.files[s.name] == Overwrite(s.data, offset, bytes)
  {
    hide Inv, Find, Committed, Declared, Overwrite;
    var s := st.mapped[i];
    FoundAt(st, s.base, i);
    var declared := Ranged(st, s.base, range);
    RangeRefines(st, s.base, range);
    FoundAt(declared, s.base, i);
    forall k | offset <= k < offset + |bytes|
      ensures Declared(declared.mapped[i].ranges, k)
    {
      LastDeclared(s.ranges, range, k);
    }
    var written := Modified(declared, s.base, offset, bytes);
    ModifyRefines(declared, s.base, offset, bytes);
    FileFits(written, i);
    CommitWritesFiles(written, [s.base], s.name);
  }

  lemma {:induction false} LastDeclared(ranges: seq<Range>, range: Range, k: int)
    requires range.offset <= k < range.offset + range.size
    ensures Declared(ranges + [range], k)
  {
    assert (ranges + [range])[|ranges|] == range;
  }

  /** An abort reads the files of the segments it names back into memory, and touches nothing else. */
  lemma {:induction false} AbortRestores(st: Store, bases: seq<nat>, i: nat)
    requires Inv(st) && i < |st.mapped|
    ensures var s, after := st.mapped[i], Aborted(st, bases);
            && Inv(after) && after.files == st.files && |after.mapped| == |st.mapped| && s.name in st.files
            && after.mapped[i] == if s.base in bases then s.(data := st.files[s.name]) else s
  {
    hide Find, Inv;
    FileFits(st, i);
    if bases != [] {
      var init, last := bases[..|bases| - 1], bases[|bases| - 1];
      AbortRestores(st, init, i);
      var before := Aborted(st, init);
      AbortOneInv(before, last);
      FoundAt(before, last, i);
      assert bases == init + [last];
    }
  }

  /** What an abort undoes: it brings back the bytes last committed, whatever run of calls lies between,
      with crashes, mappings and other commits, that does not commit the segment again. */
  lemma {:induction false} AbortUndoes(st: Store, bases: seq<nat>, i: nat, others: seq<Op>, aborted: seq<nat>, j: nat)
    requires Inv(st) && i < |st.mapped| && st.mapped[i].base in bases
    requires LegalRun(Step(st, Commit(bases)), others)
    requires SparesAll(Step(st, Commit(bases)), others, st.mapped[i].name)
    requires var now := Run(Step(st, Commit(bases)), others);
             j < |now.mapped| && now.mapped[j].name == st.mapped[i].name && now.mapped[j].base in aborted
    ensures var s, now := st.mapped[i], Run(Step(st, Commit(bases)), others);
            var after := Step(now, Abort(aborted));
            && |s.data| <= |now.mapped[j].data| && j < |after.mapped|
            && after.mapped[j].data == s.data + Zeros(|now.mapped[j].data| - |s.data|)
  {
    hide Inv, Find, Committed, Aborted, SparesAll;
    var s, committed := st.mapped[i], Step(st, Commit(bases));
    assert s.name in st.files by { FileFits(st, i); }
    CommitWritesFiles(st, bases, s.name);
    assert s.data + Zeros(0) == s.data;
    RunSpares(committed, others, s.name, s.data);
    var now := Run(committed, others);
    FileFits(now, j);
    AbortRestores(now, aborted, j);
  }

  lemma {:induction false} AbortKeepsDisk(st: Store, bases: seq<nat>)
    ensures Aborted(st, bases).files == st.files
  {
    hide Find;
    if bases != [] {
      AbortKeepsDisk(st, bases[..|bases| - 1]);
    }
  }

  // ---------------------------------------------------------------- the library

  lemma {:induction false} FindIs(mapped: seq<Segment>, base: nat, i: nat)
    requires i <= |mapped| && (i < |mapped| ==> mapped[i].base == base)
    requires forall k | 0 <= k < i :: mapped[k].base != base
    ensures Find(mapped, base) == i
  {
    hide Find;
  }

  /** The mapping table and the files on disk. */
  class Recoverable {
    var files: Files
    var mapped: seq<Segment>

    ghost function Now(): Store reads this { Store(files, mapped) }

    /** rvm_init in a new process: the files are there, nothing is mapped. */
    constructor (files: Files)
      ensures Now() == Store(files, []) && Inv(Now())
    {
      this.files, mapped := files, [];
    }

    /** rvm_map; `base` is the address mmap picks. */
    method MapSegment(name: string, size: nat, base: nat) returns (result: Option<nat>)
      requires Inv(Now()) && Legal(Now(), Map(name, size, base))
      modifies this
      ensures Now() == Mapped(old(Now()), name, size, base) && Inv(Now())
      ensures result == if |old(mapped)| == MAXSEGS || IsMapped(old(mapped), name) then None else Some(base)
    {
      hide Inv, Find, Overwrite, Zeros;
      MapRefines(Now(), name, size, base);
      if |mapped| == MAXSEGS {
        return None;
      }
      files := files[name := FileOf(files, name)];
      var i := 0;
      while i < |mapped|
        invariant 0 <= i <= |mapped| && forall k | 0 <= k < i :: mapped[k].name != name
      {
        if mapped[i].name == name {
          return None;
        }
        i := i + 1;
      }
      var file := files[name] + Zeros(size - |files[name]|);
      files := files[name := file];
      mapped := mapped + [Segment(base, name, file, [])];
      WrittenWhole(file, size);
      files := files[name := Overwrite(file, |file| - size, file)];
      return Some(base);
    }

    /** getSegmentFromSegBase */
    method SegmentAt(base: nat) returns (i: nat)
      ensures i == Find(mapped, base)
    {
      i := 0;
      while i < |mapped|
        invariant i <= |mapped| && forall k | 0 <= k < i :: mapped[k].base != base
      {
        if mapped[i].base == base {
          FindIs(mapped, base, i);
          return;
        }
        i := i + 1;
      }
      FindIs(mapped, base, i);
    }

    /** rvm_about_to_modify */
    method AboutToModify(base: nat, offset: nat, size: nat)
      requires Inv(Now()) && Legal(Now(), Op.AboutToModify(base, Range(offset, size)))
      modifies this`mapped
      ensures Now() == Ranged(old(Now()), base, Range(offset, size)) && Inv(Now())
    {
      hide Inv, Find;
      RangeRefines(Now(), base, Range(offset, size));
      var i := SegmentAt(base);
      if i < |mapped| {
        mapped := mapped[i := mapped[i].(ranges := mapped[i].ranges + [Range(offset, size)])];
      }
    }

    /** write_segment */
    method WriteSegment(s: Segment)
      requires SegmentOk(files, s)
      modifies this`files
      ensures files == old(files)[s.name := WriteRanges(old(files)[s.name], s.data, s.ranges)]
    {
      hide WriteRanges, Declared;
      var file := files[s.name];
      ghost var was := file;
      assert s.ranges[..0] == [] && WriteRanges(was, s.data, []) == was by { NoRanges(was, s.data); }
      for itr := 0 to |s.ranges|
        invariant |file| == |s.data|
        invariant forall r | 0 <= r < itr :: Within(s.ranges[..itr][r], |s.data|)
        invariant file == WriteRanges(was, s.data, s.ranges[..itr]) && files == old(files)
      {
        var offset, size := s.ranges[itr].offset, s.ranges[itr].size;
        assert Within(s.ranges[itr], |s.data|);
        WrittenNext(was, s.data, s.ranges, itr);
        file := Overwrite(file, |file| - |s.data| + offset, s.data[offset..offset + size]);
      }
      assert s.ranges[..|s.ranges|] == s.ranges;
      files := files[s.name := file];
    }

    /** rvm_commit_trans */
    method CommitTrans(bases: seq<nat>)
      requires Inv(Now())
      modifies this`files
      ensures Now() == Committed(old(Now()), bases) && Inv(Now())
    {
      hide Inv, Find, Committed, CommitOne;
      CommitStart(Now());
      assert bases[..0] == [];
      for i := 0 to |bases|
        invariant Inv(Now()) && Now() == Committed(old(Now()), bases[..i])
      {
        ghost var before := Now();
        CommitNext(old(Now()), bases, i);
        CommitOneRefines(before, bases[i]);
        CommitMisses(before, bases[i]);
        for j := 0 to |mapped|
          invariant mapped == before.mapped
          invariant Now() == if Find(mapped, bases[i]) < j then CommitOne(before, bases[i]) else before
        {
          FoundAt(before, bases[i], j);
          if bases[i] == mapped[j].base {
            CommitWrites(before, bases[i]);
            WriteSegment(mapped[j]);
          }
        }
      }
      assert bases[..|bases|] == bases;
    }

    /** rvm_abort_trans: the file is read back into memory from its start. */
    method AbortTrans(bases: seq<nat>)
      requires Inv(Now())
      modifies this`mapped
      ensures Now() == Aborted(old(Now()), bases) && Inv(Now())
    {
      hide Inv, Find, Aborted;
      AbortStart(Now());
      assert bases[..0] == [];
      for i := 0 to |bases|
        invariant Inv(Now()) && Now() == Aborted(old(Now()), bases[..i])
      {
        ghost var before := Now();
        AbortNext(old(Now()), bases, i);
        AbortOneInv(before, bases[i]);
        for j := 0 to |mapped|
          invariant |mapped| == |before.mapped| && files == before.files
          invariant forall k | j <= k < |mapped| :: mapped[k] == before.mapped[k]
          invariant Now() == if Find(before.mapped, bases[i]) < j then AbortOne(before, bases[i]) else before
        {
          FoundAt(before, bases[i], j);
          if bases[i] == mapped[j].base {
            FileFits(before, j);
            var size := |mapped[j].data|;
            var file := files[mapped[j].name];
            mapped := mapped[j := mapped[j].(data := file[..size] + mapped[j].data[size..])];
            assert file[..size] + before.mapped[j].data[size..] == file;
          }
        }
      }
      assert bases[..|bases|] == bases;
    }
  }

  lemma {:induction false} WrittenWhole(file: seq<byte>, size: nat)
    requires |file| == size
    ensures Overwrite(file, |file| - size, file) == file
  {
  }

  lemma {:induction false} NoRanges(file: seq<byte>, data: seq<byte>)
    requires |file| == |data|
    ensures WriteRanges(file, data, []) == file
  {
  }

  lemma {:induction false} CommitStart(st: Store)
    ensures Committed(st, []) == st
  {
  }

  lemma {:induction false} CommitNext(st: Store, bases: seq<nat>, i: nat)
    requires i < |bases|
    ensures Committed(st, bases[..i + 1]) == CommitOne(Committed(st, bases[..i]), bases[i])
  {
    assert bases[..i + 1][..i] == bases[..i];
  }

  lemma {:induction false} CommitWrites(st: Store, base: nat)
    requires Inv(st) && Find(st.mapped, base) < |st.mapped|
    ensures var s := st.mapped[Find(st.mapped, base)];
            && SegmentOk(st.files, s)
            && CommitOne(st, base) == st.(files := st.files[s.name := WriteRanges(st.files[s.name], s.data, s.ranges)])
  {
    hide Find, Declared, WriteRanges;
  }

  lemma {:induction false} FoundAt(st: Store, base: nat, j: nat)
    requires Inv(st) && j < |st.mapped|
    ensures st.mapped[j].base == base <==> Find(st.mapped, base) == j
  {
    hide Find, SegmentOk;
  }

  lemma {:induction false} CommitMisses(st: Store, base: nat)
    ensures Find(st.mapped, base) == |st.mapped| ==> CommitOne(st, base) == st
  {
    hide Find;
  }

  lemma {:induction false} AbortStart(st: Store)
    ensures Aborted(st, []) == st
  {
  }

  lemma {:induction false} AbortNext(st: Store, bases: seq<nat>, i: nat)
    requires i < |bases|
    ensures Aborted(st, bases[..i + 1]) == AbortOne(Aborted(st, bases[..i]), bases[i])
  {
    assert bases[..i + 1][..i] == bases[..i];
  }

  lemma {:induction false} FileFits(st: Store, i: nat)
    requires Inv(st) && i < |st.mapped|
    ensures st.mapped[i].name in st.files && |st.files[st.mapped[i].name]| == |st.mapped[i].data|
  {
    hide Declared;
    assert SegmentOk(st.files, st.mapped[i]);
  }
}