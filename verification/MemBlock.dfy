/**
 The growable memory block of memblock.c: appending by doubling, with a limit, and what the
 reallocations cost in all.
 */
module MemBlock {
  import opened Bytes

  const BLOCK_ALLOC_MIN := 16
  const BLOCK_ALLOC_MAX := 128 * 1024 * 1024

  /** The allocation the doubling loop proposes. */
  function Proposed(alloc: nat, size: nat): (p: nat)
    requires alloc >= BLOCK_ALLOC_MIN
    ensures p >= alloc
    ensures p >= size || p > BLOCK_ALLOC_MAX
    ensures p <= alloc || (p >= 2 * alloc && p <= 2 * BLOCK_ALLOC_MAX && p < 2 * size)
    decreases BLOCK_ALLOC_MAX + 1 - alloc
  {
    if alloc < size && alloc <= BLOCK_ALLOC_MAX then Proposed(alloc * 2, size) else alloc
  }

  /** Some doubling of the present allocation is large enough and within the limit. */
  ghost predicate Fits(alloc: nat, size: nat)
  {
    exists k: nat :: size <= alloc * Pow2(k) <= BLOCK_ALLOC_MAX
  }

  lemma {:induction false} Larger(alloc: nat, k: nat)
    requires alloc > 0
    ensures alloc * Pow2(k) >= alloc
    ensures k > 0 ==> alloc * Pow2(k) == (alloc * 2) * Pow2(k - 1)
  {
    if k > 0 {
      Larger(alloc, k - 1);
      assert alloc * Pow2(k) == 2 * (alloc * Pow2(k - 1));
    }
  }

  /** The loop finds an allocation within the limit exactly when there is one. */
  lemma {:induction false} ProposedFits(alloc: nat, size: nat)
    requires alloc >= BLOCK_ALLOC_MIN && alloc < size
    ensures Proposed(alloc, size) <= BLOCK_ALLOC_MAX <==> Fits(alloc, size)
    decreases BLOCK_ALLOC_MAX + 1 - alloc
  {
    if Fits(alloc, size) {
      var k: nat :| size <= alloc * Pow2(k) <= BLOCK_ALLOC_MAX;
      Larger(alloc, k);
      assert k > 0;
      if alloc * 2 < size {
        assert size <= (alloc * 2) * Pow2(k - 1) <= BLOCK_ALLOC_MAX;
        ProposedFits(alloc * 2, size);
      } else {
        Larger(alloc * 2, k - 1);
      }
    }
    if Proposed(alloc, size) <= BLOCK_ALLOC_MAX {
      if alloc * 2 < size {
        ProposedFits(alloc * 2, size);
        var k: nat :| size <= (alloc * 2) * Pow2(k) <= BLOCK_ALLOC_MAX;
        Larger(alloc, k + 1);
        assert size <= alloc * Pow2(k + 1) <= BLOCK_ALLOC_MAX;
      } else {
        assert Pow2(1) == 2;
        assert size <= alloc * Pow2(1) <= BLOCK_ALLOC_MAX;
      }
    }
  }

  /** The doubling loop. */
  method Propose(alloc: nat, size: nat) returns (proposedAlloc: nat)
    requires alloc >= BLOCK_ALLOC_MIN
    ensures proposedAlloc == Proposed(alloc, size)
  {
    proposedAlloc := alloc;
    while proposedAlloc < size && proposedAlloc <= BLOCK_ALLOC_MAX
      invariant proposedAlloc >= BLOCK_ALLOC_MIN
      invariant Proposed(proposedAlloc, size) == Proposed(alloc, size)
      decreases BLOCK_ALLOC_MAX + 1 - proposedAlloc
    {
      proposedAlloc := proposedAlloc * 2;
    }
  }

  /** memcpy into a block. */
  method Copy(to: array<byte>, at: nat, bytes: seq<byte>)
    requires at + |bytes| <= to.Length
    modifies to
    ensures forall k | 0 <= k < at :: to[k] == old(to[k])
    ensures to[at..at + |bytes|] == bytes
  {
    for i := 0 to |bytes|
      invariant forall k | 0 <= k < at :: to[k] == old(to[k])
      invariant forall k | 0 <= k < i :: to[at + k] == bytes[k]
    {
      to[at + i] := bytes[i];
    }
  }

  /** A block of the least size can grow to any size up to 128 megabytes, and no further. */
  lemma {:induction false} GrowthLimit(size: nat)
    ensures Fits(16, size) <==> size <= 134_217_728
  {
    assert Pow2(4) == 16 && Pow2(8) == 256 && Pow2(12) == 4096 && Pow2(16) == 65_536 && Pow2(20) == 1_048_576;
    assert Pow2(23) == 8_388_608;
    assert 16 * Pow2(23) == 134_217_728;
  }

  /** `copied` counts the bytes all reallocations so far have moved; `initial` is the allocation the
      block started with. */
  class Block {
    var block: array<byte>
    var size: nat
    ghost var copied: nat
    ghost const initial: nat

    ghost predicate Valid()
      reads this
    {
      size <= block.Length && block.Length >= BLOCK_ALLOC_MIN && initial + copied <= block.Length
    }

    function Allocated(): nat reads this { block.Length }

    function Contents(): seq<byte>
      requires Valid()
      reads this, block
    {
      block[..size]
    }

    /** xmlrpc_mem_block_init. The bytes are whatever malloc leaves. */
    constructor (size: nat)
      ensures Valid() && fresh(block) && this.size == size && copied == 0
      ensures Allocated() == initial == if size < 16 then 16 else size
    {
      this.size := size;
      var needed := if size < BLOCK_ALLOC_MIN then BLOCK_ALLOC_MIN else size;
      block := new byte[needed];
      copied := 0;
      initial := needed;
    }

    /** xmlrpc_mem_block_resize: the old contents stay, as far as there is room; a fault changes
        nothing. */
    method Resize(size: nat) returns (fault: Option<int>)
      requires Valid()
      modifies this
      ensures Valid() && (block == old(block) || fresh(block))
      ensures fault == if size <= old(Allocated()) || Fits(old(Allocated()), size) then None else Some(INTERNAL_ERROR)
      ensures fault.None? ==>
                && this.size == size
                && forall k | 0 <= k < old(this.size) && k < size :: block[k] == old(block[k])
      ensures fault.Some? ==> block == old(block) && this.size == old(this.size) && copied == old(copied)
      ensures Allocated() == if size <= old(Allocated()) || fault.Some? then old(Allocated()) else Proposed(old(Allocated()), size)
    {
      hide Proposed, Fits;
      if size <= block.Length {
        this.size := size;
        return None;
      }
      ProposedFits(block.Length, size);
      var proposedAlloc := Propose(block.Length, size);
      if proposedAlloc > BLOCK_ALLOC_MAX {
        return Some(INTERNAL_ERROR);
      }
      var newBlock := new byte[proposedAlloc];
      Copy(newBlock, 0, block[..this.size]);
      assert forall k | 0 <= k < this.size :: newBlock[k] == newBlock[0..0 + this.size][k];
      copied := copied + this.size;
      block := newBlock;
      this.size := size;
      return None;
    }

    /** xmlrpc_mem_block_append */
    method Append(data: seq<byte>) returns (fault: Option<int>)
      requires Valid()
      modifies this, block
      ensures Valid() && (block == old(block) || fresh(block))
      ensures fault == if old(size) + |data| <= old(Allocated()) || Fits(old(Allocated()), old(size) + |data|) then None else Some(INTERNAL_ERROR)
      ensures Contents() == if fault.None? then old(Contents()) + data else old(Contents())
      ensures fault.Some? ==> Allocated() == old(Allocated()) && copied == old(copied)
      ensures Allocated() >= old(Allocated())
    {
      hide Fits, Proposed;
      ghost var before := Contents();
      var size := this.size;
      fault := Resize(size + |data|);
      if fault.Some? {
        return;
      }
      Copy(block, size, data);
      assert block[..this.size] == before + data;
    }
  }

  function Flatten(parts: seq<seq<byte>>): seq<byte>
  {
    if parts == [] then [] else Flatten(parts[..|parts| - 1]) + parts[|parts| - 1]
  }

  /** Any run of appends: the block holds what went in, up to the first fault, and moving it about has
      cost no more bytes than the block has grown. */
  method AppendAll(block: Block, parts: seq<seq<byte>>) returns (done: nat, fault: Option<int>)
    requires block.Valid() && block.copied == 0 && block.initial == block.Allocated()
    modifies block, block.block
    ensures done <= |parts| && (fault.None? ==> done == |parts|)
    ensures block.Valid() && block.Contents() == old(block.Contents()) + Flatten(parts[..done])
    ensures block.copied <= block.Allocated() - old(block.Allocated())
  {
    hide Fits, Proposed;
    done, fault := 0, None;
    assert old(block.Contents()) + Flatten(parts[..0]) == old(block.Contents());
    while done < |parts|
      invariant done <= |parts|
      invariant block.Valid() && (block.block == old(block.block) || fresh(block.block))
      invariant block.Contents() == old(block.Contents()) + Flatten(parts[..done])
    {
      fault := block.Append(parts[done]);
      if fault.Some? {
        return;
      }
      assert parts[..done + 1][..done] == parts[..done];
      assert old(block.Contents()) + Flatten(parts[..done]) + parts[done] == old(block.Contents()) + Flatten(parts[..done + 1]);
      done := done + 1;
    }
  }
}
