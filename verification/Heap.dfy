/**
 The reference-counted value heap of xmlrpc_data.c, xmlrpc_array.c and xmlrpc_struct.c: what the
 counts mean, and what releasing a reference does.

 A value is named by its place in the sequence of cells; a freed cell stays behind as Dead, so a
 stale reference is always visible as one.
 */
module Heap {
  import opened Bytes
  import opened Values

  type Ref = nat

  datatype Slot = Slot(hash: byte, key: Ref, value: Ref)

  datatype Body =
    | BInt(i: int32)
    | BBool(b: bool)
    | BStr(s: seq<byte>)
    | BDateTime(text: seq<byte>)
    | BBinary(data: seq<byte>)
    | BNil
    | BCPtr(address: nat)
    | BArray(items: seq<Ref>)
    | BStruct(slots: seq<Slot>)

  /** A cell whose count is zero but which is not Dead is being destroyed. */
  datatype Cell = Dead | Live(rc: nat, body: Body)

  predicate Counted(c: Cell) { c.Live? && c.rc > 0 }

  predicate InUse(cells: seq<Cell>, r: Ref) { r < |cells| && Counted(cells[r]) }

  function SlotRefs(slots: seq<Slot>): (refs: seq<Ref>)
    ensures |refs| == 2 * |slots|
    ensures forall k | 0 <= k < |slots| :: refs[2 * k] == slots[k].key && refs[2 * k + 1] == slots[k].value
  {
    if slots == [] then [] else [slots[0].key, slots[0].value] + SlotRefs(slots[1..])
  }

  /** The references a value holds, in the order its destructor releases them. */
  function Refs(b: Body): seq<Ref>
  {
    match b
    case BArray(items) => items
    case BStruct(slots) => SlotRefs(slots)
    case _ => []
  }

  function Occurs(c: Cell, r: Ref): nat
  {
    if Counted(c) then multiset(Refs(c.body))[r] else 0
  }

  /** How many array and struct slots of values in use point at `r`. */
  function SlotCount(cells: seq<Cell>, r: Ref): nat
  {
    if cells == [] then 0 else SlotCount(cells[..|cells| - 1], r) + Occurs(cells[|cells| - 1], r)
  }

  function Rc(cells: seq<Cell>, r: Ref): nat
  {
    if r < |cells| && cells[r].Live? then cells[r].rc else 0
  }

  /** Every count is what the outside holds plus the slots that point here. */
  ghost predicate Conserved(cells: seq<Cell>, held: multiset<Ref>)
  {
    forall r: Ref {:trigger Rc(cells, r)} {:trigger SlotCount(cells, r)} :: Rc(cells, r) == held[r] + SlotCount(cells, r)
  }

  /** No destruction is under way. */
  predicate Settled(cells: seq<Cell>)
  {
    forall k | 0 <= k < |cells| :: cells[k].Live? ==> cells[k].rc > 0
  }

  // ---------------------------------------------------------------- counting slots

  lemma {:induction false} SlotCountUpdate(cells: seq<Cell>, i: nat, c: Cell, r: Ref)
    requires i < |cells|
    ensures SlotCount(cells[i := c], r) + Occurs(cells[i], r) == SlotCount(cells, r) + Occurs(c, r)
  {
    hide Occurs;
    var n := |cells| - 1;
    if i < n {
      SlotCountUpdate(cells[..n], i, c, r);
      assert cells[i := c][..n] == cells[..n][i := c];
    } else {
      assert cells[i := c][..n] == cells[..n];
    }
  }

  lemma {:induction false} SlotCountAppend(cells: seq<Cell>, c: Cell, r: Ref)
    ensures SlotCount(cells + [c], r) == SlotCount(cells, r) + Occurs(c, r)
  {
    assert (cells + [c])[..|cells|] == cells;
  }

  lemma {:induction false} SlotCountIncludes(cells: seq<Cell>, i: nat, r: Ref)
    requires i < |cells|
    ensures SlotCount(cells, r) >= Occurs(cells[i], r)
  {
    hide Occurs;
    var n := |cells| - 1;
    if i < n {
      SlotCountIncludes(cells[..n], i, r);
    }
  }

  /** A slot that points somewhere belongs to some value in use. */
  lemma {:induction false} Owner(cells: seq<Cell>, r: Ref) returns (o: Ref)
    requires SlotCount(cells, r) > 0
    ensures InUse(cells, o) && r in Refs(cells[o].body)
  {
    var n := |cells| - 1;
    if Occurs(cells[n], r) > 0 {
      o := n;
    } else {
      o := Owner(cells[..n], r);
    }
  }

  /** Whatever a value in use points at is in use: there is no dangling reference. */
  lemma {:induction false} NoDangling(cells: seq<Cell>, held: multiset<Ref>, o: Ref, r: Ref)
    requires Conserved(cells, held) && InUse(cells, o) && r in Refs(cells[o].body)
    ensures InUse(cells, r)
  {
    SlotCountIncludes(cells, o, r);
    assert Rc(cells, r) == held[r] + SlotCount(cells, r);
  }

  lemma {:induction false} HeldInUse(cells: seq<Cell>, held: multiset<Ref>, r: Ref)
    requires Conserved(cells, held) && held[r] > 0
    ensures InUse(cells, r)
  {
    assert Rc(cells, r) == held[r] + SlotCount(cells, r);
  }

  // ---------------------------------------------------------------- releasing references

  function TotalRc(cells: seq<Cell>): nat
  {
    if cells == [] then 0
    else TotalRc(cells[..|cells| - 1]) + (if cells[|cells| - 1].Live? then cells[|cells| - 1].rc else 0)
  }

  lemma {:induction false} TotalRcUpdate(cells: seq<Cell>, i: nat, c: Cell)
    requires i < |cells|
    ensures TotalRc(cells[i := c]) + (if cells[i].Live? then cells[i].rc else 0)
         == TotalRc(cells) + (if c.Live? then c.rc else 0)
  {
    var n := |cells| - 1;
    if i < n {
      TotalRcUpdate(cells[..n], i, c);
      assert cells[i := c][..n] == cells[..n][i := c];
    } else {
      assert cells[i := c][..n] == cells[..n];
    }
  }

  /** Release the references `todo`, one after the other: each takes one from a count, and a count
      that falls to zero frees the value and releases what it held. Counts bound the work, whatever
      the shape of the heap. */
  function Release(cells: seq<Cell>, todo: seq<Ref>): (after: seq<Cell>)
    ensures |after| == |cells|
    decreases TotalRc(cells), |todo|
  {
    if todo == [] then cells
    else
      var r := todo[0];
      if !InUse(cells, r) then Release(cells, todo[1..])
      else
        var c := cells[r];
        TotalRcUpdate(cells, r, Live(c.rc - 1, c.body));
        TotalRcUpdate(cells, r, Dead);
        if c.rc > 1 then Release(cells[r := Live(c.rc - 1, c.body)], todo[1..])
        else Release(cells[r := Dead], Refs(c.body) + todo[1..])
  }

  lemma {:induction false} ReleaseConcat(cells: seq<Cell>, a: seq<Ref>, b: seq<Ref>)
    ensures Release(cells, a + b) == Release(Release(cells, a), b)
    decreases TotalRc(cells), |a|
  {
    hide Refs;
    if a == [] {
      assert a + b == b;
    } else {
      var r := a[0];
      assert (a + b)[1..] == a[1..] + b;
      if !InUse(cells, r) {
        ReleaseConcat(cells, a[1..], b);
      } else {
        var c := cells[r];
        TotalRcUpdate(cells, r, Live(c.rc - 1, c.body));
        TotalRcUpdate(cells, r, Dead);
        if c.rc > 1 {
          ReleaseConcat(cells[r := Live(c.rc - 1, c.body)], a[1..], b);
        } else {
          assert Refs(c.body) + (a[1..] + b) == Refs(c.body) + a[1..] + b;
          ReleaseConcat(cells[r := Dead], Refs(c.body) + a[1..], b);
        }
      }
    }
  }

  /** A cell that is not in use takes no part: it may as well be marked Dead before or after. */
  lemma {:induction false} ReleaseInert(cells: seq<Cell>, todo: seq<Ref>, i: Ref, c: Cell)
    requires i < |cells| && !Counted(cells[i]) && !Counted(c)
    ensures Release(cells[i := c], todo) == Release(cells, todo)[i := c]
    decreases TotalRc(cells), |todo|
  {
    hide Refs;
    TotalRcUpdate(cells, i, c);
    if todo != [] {
      var r := todo[0];
      if !InUse(cells, r) {
        ReleaseInert(cells, todo[1..], i, c);
      } else {
        var cell := cells[r];
        var less, dead := Live(cell.rc - 1, cell.body), Dead;
        TotalRcUpdate(cells, r, less);
        TotalRcUpdate(cells, r, dead);
        if cell.rc > 1 {
          assert cells[i := c][r := less] == cells[r := less][i := c];
          ReleaseInert(cells[r := less], todo[1..], i, c);
        } else {
          assert cells[i := c][r := dead] == cells[r := dead][i := c];
          ReleaseInert(cells[r := dead], Refs(cell.body) + todo[1..], i, c);
        }
      }
    }
  }

  /** What one release can do to a cell: nothing if it is not in use; otherwise free it or lower its
      count, never touching what it holds. */
  predicate Survives(before: Cell, after: Cell)
  {
    if !Counted(before) then after == before
    else after.Dead? || (after.Live? && after.body == before.body && 0 < after.rc <= before.rc)
  }

  lemma {:induction false} ReleaseSurvivors(cells: seq<Cell>, todo: seq<Ref>, x: Ref)
    requires x < |cells|
    ensures Survives(cells[x], Release(cells, todo)[x])
    decreases TotalRc(cells), |todo|
  {
    hide Refs;
    if todo != [] {
      var r := todo[0];
      if !InUse(cells, r) {
        ReleaseSurvivors(cells, todo[1..], x);
      } else {
        var c := cells[r];
        TotalRcUpdate(cells, r, Live(c.rc - 1, c.body));
        TotalRcUpdate(cells, r, Dead);
        if c.rc > 1 {
          ReleaseSurvivors(cells[r := Live(c.rc - 1, c.body)], todo[1..], x);
        } else {
          ReleaseSurvivors(cells[r := Dead], Refs(c.body) + todo[1..], x);
        }
      }
    }
  }

  lemma {:induction false} ReleaseSettled(cells: seq<Cell>, todo: seq<Ref>)
    requires Settled(cells)
    ensures Settled(Release(cells, todo))
  {
    forall k | 0 <= k < |cells|
      ensures Release(cells, todo)[k].Live? ==> Release(cells, todo)[k].rc > 0
    {
      ReleaseSurvivors(cells, todo, k);
    }
  }

  lemma {:induction false} ReleaseTotal(cells: seq<Cell>, todo: seq<Ref>)
    ensures TotalRc(Release(cells, todo)) <= TotalRc(cells)
    decreases TotalRc(cells), |todo|
  {
    if todo != [] {
      var r := todo[0];
      if !InUse(cells, r) {
        ReleaseTotal(cells, todo[1..]);
      } else {
        var c := cells[r];
        TotalRcUpdate(cells, r, Live(c.rc - 1, c.body));
        TotalRcUpdate(cells, r, Dead);
        if c.rc > 1 {
          ReleaseTotal(cells[r := Live(c.rc - 1, c.body)], todo[1..]);
        } else {
          ReleaseTotal(cells[r := Dead], Refs(c.body) + todo[1..]);
        }
      }
    }
  }

  lemma {:induction false} LowerCount(cells: seq<Cell>, held: multiset<Ref>, r: Ref)
    requires InUse(cells, r) && cells[r].rc > 1
    requires Conserved(cells, held + multiset{r})
    ensures Conserved(cells[r := Live(cells[r].rc - 1, cells[r].body)], held)
  {
    var less := Live(cells[r].rc - 1, cells[r].body);
    var cells' := cells[r := less];
    forall x: Ref
      ensures Rc(cells', x) == held[x] + SlotCount(cells', x)
    {
      SlotCountUpdate(cells, r, less, x);
      assert Rc(cells, x) == (held + multiset{r})[x] + SlotCount(cells, x);
    }
  }

  lemma {:induction false} FreeCell(cells: seq<Cell>, held: multiset<Ref>, r: Ref, c: Cell)
    requires InUse(cells, r) && cells[r].rc == 1
    requires Conserved(cells, held + multiset{r})
    requires c.Dead? || c.rc == 0
    ensures Conserved(cells[r := c], held + multiset(Refs(cells[r].body)))
  {
    hide Refs;
    var refs := multiset(Refs(cells[r].body));
    var cells' := cells[r := c];
    assert Rc(cells, r) == (held + multiset{r})[r] + SlotCount(cells, r);
    SlotCountIncludes(cells, r, r);
    forall x: Ref
      ensures Rc(cells', x) == (held + refs)[x] + SlotCount(cells', x)
    {
      SlotCountUpdate(cells, r, c, x);
      assert Rc(cells, x) == (held + multiset{r})[x] + SlotCount(cells, x);
    }
  }

  /** Releasing references that are held conserves the counts for what is still held. */
  lemma {:induction false} ReleaseConserves(cells: seq<Cell>, held: multiset<Ref>, todo: seq<Ref>)
    requires Conserved(cells, held + multiset(todo))
    ensures Conserved(Release(cells, todo), held)
    decreases TotalRc(cells), |todo|
  {
    hide Refs, Conserved;
    if todo == [] {
      assert held + multiset(todo) == held;
    } else {
      var r, rest := todo[0], todo[1..];
      assert todo == [r] + rest;
      assert held + multiset(todo) == held + multiset(rest) + multiset{r};
      HeldInUse(cells, held + multiset(todo), r);
      var c := cells[r];
      TotalRcUpdate(cells, r, Live(c.rc - 1, c.body));
      TotalRcUpdate(cells, r, Dead);
      if c.rc > 1 {
        LowerCount(cells, held + multiset(rest), r);
        ReleaseConserves(cells[r := Live(c.rc - 1, c.body)], held, rest);
      } else {
        FreeCell(cells, held + multiset(rest), r, Dead);
        assert held + multiset(rest) + multiset(Refs(c.body)) == held + multiset(Refs(c.body) + rest);
        ReleaseConserves(cells[r := Dead], held, Refs(c.body) + rest);
      }
    }
  }
}
