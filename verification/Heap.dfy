/** The heap, pw_allocator/freelist_heap.cc, on top of its block list and its free list. */
module Heap {
  import opened HeapLayout
  import opened HeapFreeList
  import opened HeapBlocks
  import opened HeapChunks

  /** A pointer is null or an offset from the start of the region, which may lie outside of it. */
  type Pointer = Option<int>

  class FreeListHeap {
    const mem: array<Byte>
    const blockList: BlockList
    const freeList: FreeList

    ghost predicate Wired()
      reads this, blockList, freeList
    {
      && blockList.mem == mem && freeList.mem == mem
      && blockList.Valid() && freeList.Valid()
    }

    /** Blocks tile the region, no two free ones touch, and the free list has exactly the free ones large enough. */
    ghost predicate Valid()
      reads this, blockList, freeList
    {
      && Wired()
      && Coalesced(blockList.blocks)
      && Matches(freeList.listed, blockList.blocks, {})
    }

    ghost function Blocks(): HeapLayout.Blocks
      reads this, blockList
    {
      blockList.blocks
    }

    /** The allocations: pairwise disjoint, as they are blocks of a tiling. */
    ghost function Allocated(): set<Block>
      reads this, blockList
    {
      Live(blockList.blocks)
    }

    constructor (mem: array<Byte>, sizes: seq<nat>)
      requires HEADER_SIZE <= mem.Length && mem.Length % 4 == 0
      modifies mem
      ensures Valid() && this.mem == mem && Allocated() == {}
      ensures fresh(blockList) && fresh(freeList)
    {
      this.mem := mem;
      blockList := new BlockList(mem);
      freeList := new FreeList(sizes, mem);
      new;
      ghost var b := Block(0, mem.Length, false);
      assert b in blockList.blocks && b in {b};
      assert Matches(freeList.listed, blockList.blocks, {b});
      MatchesAdd(freeList.listed, blockList.blocks, mem.Length, {b}, b);
      assert {b} - {b} == {};
      var status := freeList.AddChunk(HEADER_SIZE, mem.Length - HEADER_SIZE);
    }

    /** Takes the chunk of a free block off the free list, if it is on it. */
    method Unlist(ghost b: Block, ghost skip: set<Block>, ghost live: set<Block>, o: nat, size: nat)
      requires Wired() && Matches(freeList.listed, Blocks(), skip)
      requires b in Blocks() && b !in skip && !b.used && b.Usable() == o && b.Inner() == size
      requires live <= Allocated()
      modifies freeList, mem
      ensures Wired() && Matches(freeList.listed, Blocks(), skip + {b})
      ensures Kept(live, old(mem[..]), mem[..])
    {
      hide Matches, Tiled;
      MatchesRemove(freeList.listed, Blocks(), mem.Length, skip, b);
      OutsideIsKeptAfter(Blocks(), mem.Length, freeList.listed, skip, live);
      var status := freeList.RemoveChunk(o, size);
    }

    /** Lists the chunk of a free block, if it is large enough. */
    method List(ghost b: Block, ghost skip: set<Block>, ghost live: set<Block>, o: nat, size: nat)
      requires Wired() && Matches(freeList.listed, Blocks(), skip)
      requires b in Blocks() && b in skip && !b.used && b.Usable() == o && b.Inner() == size
      requires live <= Allocated()
      modifies freeList, mem
      ensures Wired() && Matches(freeList.listed, Blocks(), skip - {b})
      ensures Kept(live, old(mem[..]), mem[..])
    {
      hide Matches;
      SkippedIsUnlisted(freeList.listed, Blocks(), mem.Length, skip, b);
      MatchesAdd(freeList.listed, Blocks(), mem.Length, skip, b);
      MemberWithin(Blocks(), mem.Length, b);
      ghost var before := mem[..];
      var status := freeList.AddChunk(o, size);
      ChunkIsKept(Blocks(), mem.Length, b, before, mem[..], live);
    }

    // ---------------------------------------------------------------- allocation

    /** Splits a free, unlisted block at the requested size, if what is left is worth it, and lists the rest. */
    method SplitChunk(b: nat, size: nat, ghost i: nat)
      requires Wired() && Coalesced(Blocks())
      requires i < |Blocks()| && Blocks()[i].start == b && !Blocks()[i].used && size <= Blocks()[i].Inner()
      requires Matches(freeList.listed, Blocks(), {Blocks()[i]})
      modifies blockList, freeList, mem
      ensures Wired() && Allocated() == old(Allocated())
      ensures i < |Blocks()| && Blocks()[i].start == b && !Blocks()[i].used && size <= Blocks()[i].Inner()
      ensures Blocks() == SplitFor(old(Blocks()), i, size)
      ensures Matches(freeList.listed, Blocks(), {Blocks()[i]})
      ensures Coalesced(Blocks()[i := Blocks()[i].(used := true)])
      ensures Kept(old(Allocated()), old(mem[..]), mem[..])
    {
      hide Matches, Tiled, Linked, Coalesced, SplitAt;
      ghost var blocks, live := Blocks(), Allocated();
      ghost var before := mem[..];
      var status, leftover := blockList.Split(b, size, i);
      UsableKeptIsKept(blocks, i, before, mem[..], live);
      if status == Ok {
        ghost var inner := RoundedUp(size);
        ghost var head, tail := HeadPart(blocks[i], inner), TailPart(blocks[i], inner);
        SplitPair(blocks, i, inner);
        SplitKeepsLive(freeList.listed, blocks, mem.Length, i, inner);
        SplitCoalesced(blocks, i, inner);
        HeaderAt(i + 1);
        ghost var middle := mem[..];
        List(tail, {head, tail}, live, leftover + HEADER_SIZE, blockList.headers[leftover].next - leftover - HEADER_SIZE);
        KeptTransitive(live, before, middle, mem[..]);
        assert head != tail && {head, tail} - {tail} == {head};
      } else {
        MarkCoalesced(blocks, i);
      }
    }

    lemma HeaderAt(i: nat)
      requires Wired() && i < |Blocks()|
      ensures Blocks()[i].start in blockList.headers && blockList.headers[Blocks()[i].start] == HeaderOf(Blocks(), i)
      ensures HEADER_SIZE <= Blocks()[i].outer && Blocks()[i].End() <= mem.Length
    {
      blockList.Find(i);
    }

    /**
     Gives out a block of at least this size, exactly if the free list has one. No allocation is disturbed, and no more is
     taken than the size asked for, rounded up, and less than two headers.
     */
    method Allocate(size: nat) returns (ptr: Pointer)
      requires Valid()
      modifies blockList, freeList, mem
      ensures Valid()
      ensures ptr == None <==> size == 0 || forall b :: b in old(Blocks()) && Listable(b) ==> b.Inner() < size
      ensures ptr == None ==> Blocks() == old(Blocks()) && mem[..] == old(mem[..])
      ensures ptr.Some? ==> GivenOut(old(Allocated()), Allocated(), ptr.value, size)
      ensures ptr.Some? ==> CarvedOut(old(Blocks()), Blocks(), ptr.value, size)
      ensures ptr.Some? ==> old(FreeBytes(Blocks())) < FreeBytes(Blocks()) + RoundedUp(size) + 2 * HEADER_SIZE
      ensures Kept(old(Allocated()), old(mem[..]), mem[..])
    {
      hide Tiled, Linked, Coalesced, Matches, FreeBytes, Carved, SplitFor;
      ghost var original := Blocks();
      var chunk, chunkSize := freeList.FindChunk(size);
      FoundIffListable(freeList.listed, Blocks(), size);
      if chunk == None {
        return None;
      }
      ghost var live, before := Allocated(), mem[..];
      ghost var i := ChunkIndex(freeList.listed, Blocks(), mem.Length, chunk.value);
      var b := chunk.value - HEADER_SIZE;
      var valid := blockList.CheckStatus(b, i);
      Unlist(Blocks()[i], {}, live, chunk.value, chunkSize);
      assert {} + {Blocks()[i]} == {Blocks()[i]};
      ghost var first := mem[..];
      SplitChunk(b, size, i);
      ghost var second, blocks := mem[..], Blocks();
      blockList.Mark(b, true, i);
      UsableKeptIsKept(blocks, -1, second, mem[..], live);
      KeptTransitive(live, before, first, second);
      KeptTransitive(live, before, second, mem[..]);
      MarkUsedMatches(freeList.listed, blocks, mem.Length, i);
      CarvedBlock(original, i, size);
      return Some(b + HEADER_SIZE);
    }

    // ---------------------------------------------------------------- freeing

    predicate InRegion(ptr: Pointer) {
      ptr.Some? && 0 <= ptr.value < mem.Length
    }

    /** What callers owe: a pointer into the region is the start of the usable space of some block. */
    ghost predicate Proper(ptr: Pointer)
      reads this, blockList
    {
      InRegion(ptr) ==> exists b :: b in Blocks() && b.Usable() == ptr.value
    }

    ghost predicate PointsTo(ptr: Pointer, b: Block)
      reads this, blockList
    {
      InRegion(ptr) && b in Allocated() && b.Usable() == ptr.value
    }

    /** Gives a block back and joins it with free neighbours. Anything but an allocation is left alone. */
    method Free(ptr: Pointer)
      requires Valid() && Proper(ptr)
      modifies blockList, freeList, mem
      ensures Valid()
      ensures forall b :: old(PointsTo(ptr, b)) ==> Allocated() == old(Allocated()) - {b}
      ensures forall b :: old(PointsTo(ptr, b)) ==> FreeBytes(Blocks()) == old(FreeBytes(Blocks())) + b.outer
      ensures (forall b :: !old(PointsTo(ptr, b))) ==> Blocks() == old(Blocks()) && mem[..] == old(mem[..])
      ensures Kept(Allocated(), old(mem[..]), mem[..])
    {
      hide Tiled, Linked, Coalesced, Matches, FreeBytes;
      if !InRegion(ptr) {
        return;
      }
      ghost var i := BlockIndex(ptr.value);
      var b := ptr.value - HEADER_SIZE;
      var valid := blockList.CheckStatus(b, i);
      HeaderAt(i);
      if !blockList.headers[b].used {
        NotAllocated(Blocks(), mem.Length, i);
        return;
      }
      OnlyAllocation(Blocks(), mem.Length, i);
      assert PointsTo(ptr, Blocks()[i]);
      FreeUsed(b, i);
    }

    lemma BlockIndex(ptr: nat) returns (i: nat)
      requires Valid() && ptr < mem.Length && Proper(Some(ptr))
      ensures i < |Blocks()| && Blocks()[i].Usable() == ptr
    {
      var b :| b in Blocks() && b.Usable() == ptr;
      i :| 0 <= i < |Blocks()| && Blocks()[i] == b;
    }

    /** Marks an allocation free, joins it with its free neighbours, and lists the result. */
    method FreeUsed(b: nat, ghost i: nat)
      requires Valid() && i < |Blocks()| && Blocks()[i].start == b && Blocks()[i].used
      modifies blockList, freeList, mem
      ensures Valid()
      ensures Allocated() == old(Allocated()) - {old(Blocks())[i]}
      ensures FreeBytes(Blocks()) == old(FreeBytes(Blocks())) + old(Blocks())[i].outer
      ensures Kept(Allocated(), old(mem[..]), mem[..])
    {
      hide Tiled, Linked, Coalesced, Matches, MergeAt, Nearly, FreeBytes;
      ghost var blocks, live := Blocks(), Allocated() - {Blocks()[i]};
      ghost var s0 := mem[..];
      MarkFreeMatches(freeList.listed, blocks, mem.Length, i);
      MarkFreeBytes(blocks, i, false);
      blockList.Mark(b, false, i);
      UsableKeptIsKept(blocks, -1, s0, mem[..], live);
      HeaderAt(i);
      var prev := blockList.headers[b].prev;
      var next := if blockList.headers[b].last then None else Some(blockList.headers[b].next);
      ghost var s1 := mem[..];
      ghost var k;
      var chunk;
      chunk, k := JoinPrev(b, prev, i, live);
      ghost var s2 := mem[..];
      JoinNext(chunk, next, k, live);
      ghost var s3 := mem[..];
      HeaderAt(k);
      ghost var freed := Blocks()[k];
      List(freed, {freed}, live, chunk + HEADER_SIZE, blockList.headers[chunk].next - chunk - HEADER_SIZE);
      assert {freed} - {freed} == {};
      KeptTransitive(live, s0, s1, s2);
      KeptTransitive(live, s0, s2, s3);
      KeptTransitive(live, s0, s3, mem[..]);
    }

    method JoinPrev(b: nat, prev: Option<nat>, ghost i: nat, ghost live: set<Block>) returns (chunk: nat, ghost k: nat)
      requires Wired() && i < |Blocks()| && Blocks()[i].start == b && !Blocks()[i].used && live == Allocated()
      requires prev == HeaderOf(Blocks(), i).prev
      requires Nearly(Blocks(), i) && Matches(freeList.listed, Blocks(), {Blocks()[i]})
      modifies blockList, freeList, mem
      ensures Wired() && k < |Blocks()| && Blocks()[k].start == chunk && !Blocks()[k].used && live == Allocated()
      ensures Nearly(Blocks(), k) && (k == 0 || Blocks()[k - 1].used)
      ensures Matches(freeList.listed, Blocks(), {Blocks()[k]})
      ensures FreeBytes(Blocks()) == old(FreeBytes(Blocks()))
      ensures Blocks()[k].End() == old(Blocks())[i].End() && (k + 1 == |Blocks()| <==> i + 1 == |old(Blocks())|)
      ensures Kept(live, old(mem[..]), mem[..])
    {
      hide Tiled, Linked, Matches, MergeAt, Nearly, FreeBytes;
      ghost var blocks, before := Blocks(), mem[..];
      if prev != None {
        HeaderAt(i - 1);
        if !blockList.headers[prev.value].used {
          MergeKeeps(freeList.listed, blocks, mem.Length, i - 1, live);
          Unlist(blocks[i - 1], {blocks[i]}, live, prev.value + HEADER_SIZE,
                 blockList.headers[prev.value].next - prev.value - HEADER_SIZE);
          assert {blocks[i]} + {blocks[i - 1]} == {blocks[i - 1], blocks[i]};
          ghost var middle := mem[..];
          MergeMatches(freeList.listed, blocks, mem.Length, i - 1);
          MergeFreeBytes(blocks, i - 1);
          var status := blockList.MergePrev(b, i);
          UsableKeptIsKept(blocks, -1, middle, mem[..], live);
          KeptTransitive(live, before, middle, mem[..]);
          NearlyMerged(blocks, i, i - 1);
          return prev.value, i - 1;
        }
      }
      return b, i;
    }

    method JoinNext(chunk: nat, next: Option<nat>, ghost k: nat, ghost live: set<Block>)
      requires Wired() && k < |Blocks()| && Blocks()[k].start == chunk && !Blocks()[k].used && live == Allocated()
      requires next == if k + 1 == |Blocks()| then None else Some(Blocks()[k].End())
      requires Nearly(Blocks(), k) && (k == 0 || Blocks()[k - 1].used)
      requires Matches(freeList.listed, Blocks(), {Blocks()[k]})
      modifies blockList, freeList, mem
      ensures Wired() && k < |Blocks()| && Blocks()[k].start == chunk && !Blocks()[k].used && live == Allocated()
      ensures Coalesced(Blocks()) && Matches(freeList.listed, Blocks(), {Blocks()[k]})
      ensures FreeBytes(Blocks()) == old(FreeBytes(Blocks()))
      ensures Kept(live, old(mem[..]), mem[..])
    {
      hide Tiled, Linked, Matches, MergeAt, Nearly, Coalesced, FreeBytes;
      ghost var blocks, before := Blocks(), mem[..];
      NearlyIsCoalesced(blocks, k);
      if next != None {
        HeaderAt(k + 1);
        EndIsNext(blocks, mem.Length, k);
        if !blockList.headers[next.value].used {
          MergeKeeps(freeList.listed, blocks, mem.Length, k, live);
          Unlist(blocks[k + 1], {blocks[k]}, live, next.value + HEADER_SIZE,
                 blockList.headers[next.value].next - next.value - HEADER_SIZE);
          assert {blocks[k]} + {blocks[k + 1]} == {blocks[k], blocks[k + 1]};
          ghost var middle := mem[..];
          MergeMatches(freeList.listed, blocks, mem.Length, k);
          MergeFreeBytes(blocks, k);
          var status := blockList.MergeNext(chunk, k);
          UsableKeptIsKept(blocks, -1, middle, mem[..], live);
          KeptTransitive(live, before, middle, mem[..]);
          NearlyMerged(blocks, k, k);
          NearlyIsCoalesced(Blocks(), k);
        }
      }
    }

    // ---------------------------------------------------------------- reallocation

    /** Copies the old contents to the start of a new, larger allocation. */
    method Copy(ghost from: Block, ghost to: Block, old': nat, new': nat, size: nat)
      requires Wired() && from in Allocated() && to in Allocated() && from != to
      requires old' == from.Usable() && new' == to.Usable() && size == from.Inner() < to.Inner()
      modifies mem
      ensures Kept(Allocated() - {to}, old(mem[..]), mem[..])
      ensures to.End() <= mem.Length && from.End() <= mem.Length
      ensures mem[new'..new' + size] == old(mem[old'..old' + size])
    {
      MemberWithin(Blocks(), mem.Length, from);
      MemberWithin(Blocks(), mem.Length, to);
      ghost var before := mem[..];
      forall k | 0 <= k < size {
        mem[new' + k] := mem[old' + k];
      }
      assert mem[new'..new' + size] == before[old'..old' + size];
      forall b, x | b in Allocated() - {to} && b.Usable() <= x < b.End() && 0 <= x < mem.Length
        ensures mem[x] == before[x]
      {
        if to.Usable() <= x < to.End() {
          LiveApart(Blocks(), mem.Length, b, to, x);
        }
      }
    }

    /**
     Grows an allocation: in place if its block is large enough already, else by moving it, contents and all,
     to a new one. When there is none, the old one stays as it is.
     */
    method Realloc(ptr: Pointer, size: nat) returns (result: Pointer)
      requires Valid() && Proper(ptr)
      modifies blockList, freeList, mem
      ensures Valid()
      ensures size == 0 ==> result == None && forall b :: old(PointsTo(ptr, b)) ==> Allocated() == old(Allocated()) - {b}
      ensures 0 < size && ptr == None && result.Some? ==> GivenOut(old(Allocated()), Allocated(), result.value, size)
      ensures 0 < size && ptr.Some? && (forall b :: !old(PointsTo(ptr, b))) ==>
        result == None && Blocks() == old(Blocks()) && mem[..] == old(mem[..])
      ensures forall b :: 0 < size && old(PointsTo(ptr, b)) && size <= b.Inner() ==>
        result == ptr && Blocks() == old(Blocks()) && mem[..] == old(mem[..])
      ensures forall b :: 0 < size && old(PointsTo(ptr, b)) && b.Inner() < size ==>
        && (result == None <==> forall c :: c in old(Blocks()) && Listable(c) ==> c.Inner() < size)
        && (result == None ==> Blocks() == old(Blocks()) && mem[..] == old(mem[..]))
        && (result.Some? ==> Moved(old(Allocated()), Allocated(), b, result.value, size, old(mem[..]), mem[..]))
        && (result.Some? ==>
              old(FreeBytes(Blocks())) + b.outer < FreeBytes(Blocks()) + RoundedUp(size) + 2 * HEADER_SIZE)
    {
      hide Tiled, Linked, Coalesced, Matches, FreeBytes, Carved;
      if size == 0 {
        Free(ptr);
        return None;
      }
      if ptr == None {
        result := Allocate(size);
        return;
      }
      if !InRegion(ptr) {
        return None;
      }
      ghost var i := BlockIndex(ptr.value);
      var b := ptr.value - HEADER_SIZE;
      HeaderAt(i);
      if !blockList.headers[b].used {
        NotAllocated(Blocks(), mem.Length, i);
        return None;
      }
      OnlyAllocation(Blocks(), mem.Length, i);
      ghost var block := Blocks()[i];
      assert PointsTo(ptr, block);
      var oldSize := blockList.headers[b].next - b - HEADER_SIZE;
      if oldSize >= size {
        return ptr;
      }
      result := Allocate(size);
      if result == None {
        return;
      }
      MoveTo(block, ptr.value, result.value, oldSize, size, old(Allocated()), old(mem[..]));
    }

    method MoveTo(ghost from: Block, ptr: nat, newPtr: int, oldSize: nat, ghost size: nat,
                  ghost live: set<Block>, ghost before: seq<Byte>)
      requires Valid() && from in live && GivenOut(live, Allocated(), newPtr, size)
      requires from.Usable() == ptr < mem.Length && from.Inner() == oldSize < size
      requires Kept(live, before, mem[..])
      modifies blockList, freeList, mem
      ensures Valid() && Moved(live, Allocated(), from, newPtr, size, before, mem[..])
      ensures FreeBytes(Blocks()) == old(FreeBytes(Blocks())) + from.outer
    {
      hide Tiled, Linked, Coalesced, Matches, FreeBytes;
      ghost var to :| to !in live && Allocated() == live + {to} && to.Usable() == newPtr && Suits(to, size);
      ghost var s1 := mem[..];
      Copy(from, to, ptr, newPtr, oldSize);
      ghost var s2 := mem[..];
      assert PointsTo(Some(ptr), from);
      Free(Some(ptr));
      CopyKept(from, to, live, before, s1, s2, mem[..]);
    }
  }

  lemma MemberWithin(blocks: Blocks, size: nat, b: Block)
    requires Tiled(blocks, size) && b in blocks
    ensures b.End() <= size && 0 <= b.Inner()
  {
    var i :| 0 <= i < |blocks| && blocks[i] == b;
    BlockWithin(blocks, size, i);
  }

  lemma OutsideIsKeptAfter(blocks: Blocks, size: nat, listed: map<nat, nat>, skip: set<Block>, live: set<Block>)
    requires Tiled(blocks, size) && Matches(listed, blocks, skip) && live <= Live(blocks)
    ensures forall before, after {:trigger SameOutside(listed, before, after)} ::
      SameOutside(listed, before, after) ==> Kept(live, before, after)
  {
    forall before, after | SameOutside(listed, before, after)
      ensures Kept(live, before, after)
    {
      OutsideIsKept(blocks, size, listed, skip, before, after, live);
    }
  }

  /** One block more is allocated than before: a new one, at this pointer, aligned and large enough. */
  ghost predicate GivenOut(before: set<Block>, after: set<Block>, ptr: int, size: nat) {
    exists b :: b !in before && after == before + {b} && b.Usable() == ptr && Suits(b, size) && ptr % ALIGNMENT == 0
  }

  /** Large enough, and with less to spare than another block would take. */
  predicate Suits(b: Block, size: nat) {
    size <= b.Inner() < RoundedUp(size) + HEADER_SIZE
  }

  /** The blocks after a split for this size, if what is left over has room for a header. */
  function SplitFor(blocks: Blocks, i: nat, size: nat): (split: Blocks)
    requires i < |blocks|
    ensures i < |split|
  {
    if RoundedUp(size) + HEADER_SIZE <= blocks[i].Inner() then SplitAt(blocks, i, RoundedUp(size)) else blocks
  }

  function Carved(blocks: Blocks, i: nat, size: nat): Blocks
    requires i < |blocks|
  {
    var split := SplitFor(blocks, i, size);
    split[i := split[i].(used := true)]
  }

  /** One free block that was listed and large enough is cut to size and in use, and all others are as before. */
  ghost predicate CarvedOut(blocks: Blocks, blocks': Blocks, ptr: int, size: nat) {
    exists i :: 0 <= i < |blocks| && Fits(blocks[i], size) && blocks[i].Usable() == ptr && blocks' == Carved(blocks, i, size)
  }

  predicate Fits(b: Block, size: nat) {
    Listable(b) && size <= b.Inner()
  }

  lemma CarvedBlock(blocks: Blocks, i: nat, size: nat)
    requires i < |blocks| && !blocks[i].used && size <= blocks[i].Inner()
    ensures Suits(SplitFor(blocks, i, size)[i], size)
    ensures Carved(blocks, i, size) == SplitFor(blocks, i, size)[i := SplitFor(blocks, i, size)[i].(used := true)]
    ensures FreeBytes(blocks) < FreeBytes(Carved(blocks, i, size)) + RoundedUp(size) + 2 * HEADER_SIZE
  {
    hide SplitAt, FreeBytes;
    if RoundedUp(size) + HEADER_SIZE <= blocks[i].Inner() {
      SplitPair(blocks, i, RoundedUp(size));
      SplitFreeBytes(blocks, i, RoundedUp(size));
    }
    MarkFreeBytes(SplitFor(blocks, i, size), i, true);
  }

  predicate IsRestOf(b: Block, whole: Block, size: nat) {
    !b.used && b.End() == whole.End() && b.Inner() == whole.Inner() - RoundedUp(size) - HEADER_SIZE
  }

  /** What is left over of a block stays free behind the part that was cut off, for the next to ask. */
  lemma LeftoverIsFree(blocks: Blocks, i: nat, size: nat)
    requires i < |blocks| && !blocks[i].used && RoundedUp(size) + HEADER_SIZE <= blocks[i].Inner()
    ensures exists b :: b in Carved(blocks, i, size) && IsRestOf(b, blocks[i], size)
  {
    SplitPair(blocks, i, RoundedUp(size));
    var b := Carved(blocks, i, size)[i + 1];
    assert b in Carved(blocks, i, size);
  }

  /** Room for an allocation of one size and another of a second one behind it. */
  predicate FitsBoth(b: Block, first: nat, second: nat) {
    Listable(b) && RoundedUp(first) + HEADER_SIZE + (if second < NODE_SIZE then NODE_SIZE else second) <= b.Inner()
  }

  /**
   An allocation leaves the rest to the next one: if there is a listed block, and each has room for both, both succeed.
   So it is in a new heap that is large enough, where the one free block is listed.
   */
  method AllocateTwice(heap: FreeListHeap, first: nat, second: nat) returns (p: Pointer, q: Pointer)
    requires heap.Valid() && first != 0 && second != 0
    requires exists b :: b in heap.Blocks() && Listable(b)
    requires forall b :: b in heap.Blocks() && Listable(b) ==> FitsBoth(b, first, second)
    modifies heap.blockList, heap.freeList, heap.mem
    ensures heap.Valid() && p.Some? && q.Some?
    ensures GivenOutBoth(old(heap.Allocated()), heap.Allocated(), p.value, first, q.value, second)
  {
    hide FreeBytes, Carved, Tiled, Linked, Coalesced, Matches;
    ghost var blocks := heap.Blocks();
    p := heap.Allocate(first);
    ghost var i :| 0 <= i < |blocks| && Fits(blocks[i], first) && heap.Blocks() == Carved(blocks, i, first);
    assert FitsBoth(blocks[i], first, second);
    LeftoverIsFree(blocks, i, first);
    ghost var middle := heap.Allocated();
    q := heap.Allocate(second);
    assert GivenOut(middle, heap.Allocated(), q.value, second);
  }

  ghost predicate GivenOutBoth(before: set<Block>, after: set<Block>, p: int, first: nat, q: int, second: nat) {
    exists middle :: GivenOut(before, middle, p, first) && GivenOut(middle, after, q, second)
  }

  lemma FoundIffListable(listed: map<nat, nat>, blocks: Blocks, size: nat)
    requires Matches(listed, blocks, {})
    ensures (forall o :: o in listed ==> listed[o] < size) <==> forall b :: b in blocks && Listable(b) ==> b.Inner() < size
  {
    if forall b :: b in blocks && Listable(b) ==> b.Inner() < size {
      forall o | o in listed
        ensures listed[o] < size
      {
        assert IsChunk(blocks, {}, o, listed[o]);
      }
    } else {
      var b :| b in blocks && Listable(b) && size <= b.Inner();
      assert b.Usable() in listed;
    }
  }

  lemma ChunkIndex(listed: map<nat, nat>, blocks: Blocks, size: nat, o: nat) returns (i: nat)
    requires Matches(listed, blocks, {}) && o in listed
    ensures i < |blocks| && Listable(blocks[i]) && blocks[i].Usable() == o && blocks[i].Inner() == listed[o]
  {
    assert IsChunk(blocks, {}, o, listed[o]);
    var b :| b in blocks && Listable(b) && b.Usable() == o && b.Inner() == listed[o];
    i :| 0 <= i < |blocks| && blocks[i] == b;
  }

  lemma SplitKeepsLive(listed: map<nat, nat>, blocks: Blocks, size: nat, i: nat, inner: nat)
    requires Tiled(blocks, size) && i < |blocks| && HEADER_SIZE + inner + HEADER_SIZE <= blocks[i].outer
    requires !blocks[i].used && Matches(listed, blocks, {blocks[i]})
    ensures Live(SplitAt(blocks, i, inner)) == Live(blocks)
    ensures var head, tail := HeadPart(blocks[i], inner), TailPart(blocks[i], inner);
      Matches(listed, SplitAt(blocks, i, inner), {head, tail})
  {
    hide Tiled, Matches, SplitAt;
    var head, tail := HeadPart(blocks[i], inner), TailPart(blocks[i], inner);
    SplitMembers(blocks, size, i, inner);
    SplitApart(blocks, size, i, inner);
    MatchesElsewhere(listed, blocks, {blocks[i]}, SplitAt(blocks, i, inner), {head, tail});
  }

  /** The parts of a split block are none of the other blocks. */
  lemma SplitApart(blocks: Blocks, size: nat, i: nat, inner: nat)
    requires Tiled(blocks, size) && i < |blocks| && HEADER_SIZE + inner + HEADER_SIZE <= blocks[i].outer
    ensures forall b :: b in blocks && b != blocks[i] ==>
      b != HeadPart(blocks[i], inner) && b != TailPart(blocks[i], inner)
  {
    forall b | b in blocks && b != blocks[i]
      ensures b != HeadPart(blocks[i], inner) && b != TailPart(blocks[i], inner)
    {
      var k :| 0 <= k < |blocks| && blocks[k] == b;
      if k < i {
        BlocksInOrder(blocks, size, k, i);
      } else {
        BlocksInOrder(blocks, size, i, k);
      }
    }
  }

  lemma SplitCoalesced(blocks: Blocks, i: nat, inner: nat)
    requires Coalesced(blocks) && i < |blocks| && HEADER_SIZE + inner + HEADER_SIZE <= blocks[i].outer && !blocks[i].used
    ensures |SplitAt(blocks, i, inner)| == |blocks| + 1
    ensures var split := SplitAt(blocks, i, inner); Coalesced(split[i := split[i].(used := true)])
  {
    var split := SplitAt(blocks, i, inner);
    forall k | 0 <= k < |split| - 1 && k != i
      ensures split[k].used || split[k + 1].used || k + 1 == i
    {
      SplitElements(blocks, i, inner, k);
      SplitElements(blocks, i, inner, k + 1);
      if k == i + 1 {
        assert blocks[i].used || blocks[i + 1].used;
      } else if k < i {
        assert blocks[k].used || blocks[k + 1].used;
      } else {
        assert blocks[k - 1].used || blocks[k].used;
      }
    }
  }

  lemma MarkCoalesced(blocks: Blocks, i: nat)
    requires Coalesced(blocks) && i < |blocks|
    ensures Coalesced(blocks[i := blocks[i].(used := true)])
  {
  }

  lemma MarkUsedMatches(listed: map<nat, nat>, blocks: Blocks, size: nat, i: nat)
    requires Tiled(blocks, size) && i < |blocks| && !blocks[i].used && Matches(listed, blocks, {blocks[i]})
    ensures var marked := blocks[i := blocks[i].(used := true)];
      && Matches(listed, marked, {})
      && blocks[i].(used := true) !in Live(blocks) && Live(marked) == Live(blocks) + {blocks[i].(used := true)}
      && blocks[i].start % ALIGNMENT == 0
  {
    hide Matches;
    MarkMembers(blocks, size, i, true);
    var b := blocks[i].(used := true);
    if b in blocks {
      MembersApart(blocks, size, b, blocks[i]);
    }
    var marked := blocks[i := b];
    forall c
      ensures c in blocks && c !in {blocks[i]} && Listable(c) <==> c in marked && c !in {} && Listable(c)
    {
      assert c in marked <==> (c in blocks && c != blocks[i]) || c == b;
      assert !Listable(b);
    }
    MatchesElsewhere(listed, blocks, {blocks[i]}, marked, {});
  }

  lemma NotAllocated(blocks: Blocks, size: nat, i: nat)
    requires Tiled(blocks, size) && i < |blocks| && !blocks[i].used
    ensures forall b :: b in Live(blocks) ==> b.start != blocks[i].start
  {
    forall b | b in Live(blocks)
      ensures b.start != blocks[i].start
    {
      if b.start == blocks[i].start {
        MembersApart(blocks, size, b, blocks[i]);
      }
    }
  }

  lemma OnlyAllocation(blocks: Blocks, size: nat, i: nat)
    requires Tiled(blocks, size) && i < |blocks| && blocks[i].used
    ensures forall b :: b in Live(blocks) && b.start == blocks[i].start ==> b == blocks[i]
  {
    forall b | b in Live(blocks) && b.start == blocks[i].start
      ensures b == blocks[i]
    {
      MembersApart(blocks, size, b, blocks[i]);
    }
  }

  /** No two free blocks touch, apart from block k, whose neighbours are not looked at. */
  ghost predicate Nearly(blocks: Blocks, k: nat) {
    forall i :: 0 <= i < |blocks| - 1 && i != k && i + 1 != k ==> blocks[i].used || blocks[i + 1].used
  }

  lemma NearlyIsCoalesced(blocks: Blocks, k: nat)
    requires Nearly(blocks, k) && k < |blocks| && (k == 0 || blocks[k - 1].used)
    ensures k + 1 == |blocks| || blocks[k + 1].used ==> Coalesced(blocks)
  {
  }

  /** Joining block k with a free neighbour leaves it with a used one on that side. */
  lemma NearlyMerged(blocks: Blocks, k: nat, i: nat)
    requires Nearly(blocks, k) && i + 1 < |blocks| && (k == i || k == i + 1)
    requires !blocks[i].used && !blocks[i + 1].used
    ensures Nearly(MergeAt(blocks, i), i) && |MergeAt(blocks, i)| == |blocks| - 1
    ensures MergeAt(blocks, i)[i] == Merged(blocks[i], blocks[i + 1])
    ensures k == i + 1 ==> i == 0 || MergeAt(blocks, i)[i - 1].used
    ensures k == i ==> i + 1 == |MergeAt(blocks, i)| || MergeAt(blocks, i)[i + 1].used
    ensures k == i && 0 < i ==> MergeAt(blocks, i)[i - 1] == blocks[i - 1]
  {
    var merged := MergeAt(blocks, i);
    forall j | 0 <= j < |merged| - 1 && j != i && j + 1 != i
      ensures merged[j].used || merged[j + 1].used
    {
      MergeElements(blocks, i, j);
      MergeElements(blocks, i, j + 1);
      var l := if j < i then j else j + 1;
      assert blocks[l].used || blocks[l + 1].used;
    }
  }

  lemma EndIsNext(blocks: Blocks, size: nat, k: nat)
    requires Tiled(blocks, size) && k + 1 < |blocks|
    ensures blocks[k].End() == blocks[k + 1].start
  {
  }

  lemma MarkFreeMatches(listed: map<nat, nat>, blocks: Blocks, size: nat, i: nat)
    requires Tiled(blocks, size) && i < |blocks| && blocks[i].used && Coalesced(blocks) && Matches(listed, blocks, {})
    ensures var marked := blocks[i := blocks[i].(used := false)];
      && Matches(listed, marked, {marked[i]}) && Live(marked) == Live(blocks) - {blocks[i]} && Nearly(marked, i)
  {
    hide Matches;
    MarkMembers(blocks, size, i, false);
    var b := blocks[i].(used := false);
    var marked := blocks[i := b];
    if b in blocks {
      MembersApart(blocks, size, b, blocks[i]);
    }
    forall c
      ensures c in blocks && c !in {} && Listable(c) <==> c in marked && c !in {b} && Listable(c)
    {
      assert c in marked <==> (c in blocks && c != blocks[i]) || c == b;
    }
    forall c
      ensures c in Live(marked) <==> c in Live(blocks) && c != blocks[i]
    {
      assert c in marked <==> (c in blocks && c != blocks[i]) || c == b;
    }
    MatchesElsewhere(listed, blocks, {}, marked, {b});
  }

  lemma MergeMatches(listed: map<nat, nat>, blocks: Blocks, size: nat, i: nat)
    requires Tiled(blocks, size) && i + 1 < |blocks| && !blocks[i].used && !blocks[i + 1].used
    requires Matches(listed, blocks, {blocks[i], blocks[i + 1]})
    ensures Matches(listed, MergeAt(blocks, i), {Merged(blocks[i], blocks[i + 1])})
  {
    hide Matches, MergeAt;
    MergeMembers(blocks, size, i);
    var m, merged := Merged(blocks[i], blocks[i + 1]), MergeAt(blocks, i);
    MergedApart(blocks, size, i);
    forall c
      ensures c in blocks && c !in {blocks[i], blocks[i + 1]} && Listable(c) <==> c in merged && c !in {m} && Listable(c)
    {
      assert c in merged <==> (c in blocks && c != blocks[i] && c != blocks[i + 1]) || c == m;
    }
    MatchesElsewhere(listed, blocks, {blocks[i], blocks[i + 1]}, merged, {m});
  }

  lemma MergedApart(blocks: Blocks, size: nat, i: nat)
    requires Tiled(blocks, size) && i + 1 < |blocks|
    ensures Merged(blocks[i], blocks[i + 1]) !in blocks
  {
    var m := Merged(blocks[i], blocks[i + 1]);
    if m in blocks {
      MembersApart(blocks, size, m, blocks[i]);
    }
  }

  /** Joining free blocks leaves the allocations alone. */
  lemma MergeKeeps(listed: map<nat, nat>, blocks: Blocks, size: nat, i: nat, live: set<Block>)
    requires Tiled(blocks, size) && i + 1 < |blocks| && !blocks[i].used && !blocks[i + 1].used && live == Live(blocks)
    ensures Live(MergeAt(blocks, i)) == live && blocks[i] != blocks[i + 1]
    ensures Merged(blocks[i], blocks[i + 1]).End() == blocks[i + 1].End()
  {
    hide MergeAt;
    MergeMembers(blocks, size, i);
    EndIsNext(blocks, size, i);
    BlocksInOrder(blocks, size, i, i + 1);
  }

  /** An allocation moved to this pointer: its block is another, its bytes are the same, and so are all others. */
  ghost predicate Moved(
    live: set<Block>, live': set<Block>, from: Block, ptr: int, size: nat, before: seq<Byte>, after: seq<Byte>)
  {
    && Kept(live - {from}, before, after)
    && exists to :: to !in live && live' == live + {to} - {from} && to.Usable() == ptr && Suits(to, size)
        && to.End() <= |after| && from.End() <= |before| && HEADER_SIZE <= from.outer <= to.outer
        && SameBytes(from, to, before, after)
  }

  ghost predicate SameBytes(from: Block, to: Block, before: seq<Byte>, after: seq<Byte>)
    requires to.End() <= |after| && from.End() <= |before| && HEADER_SIZE <= from.outer <= to.outer
  {
    after[to.Usable()..to.Usable() + from.Inner()] == before[from.Usable()..from.End()]
  }

  lemma CopyKept(
    from: Block, to: Block, live: set<Block>, s0: seq<Byte>, s1: seq<Byte>, s2: seq<Byte>, s3: seq<Byte>)
    requires from in live && to !in live && HEADER_SIZE <= from.outer <= to.outer
    requires Kept(live, s0, s1) && Kept(live + {to} - {to}, s1, s2) && Kept(live + {to} - {from}, s2, s3)
    requires to.End() <= |s2| && from.End() <= |s1| && SameBytes(from, to, s1, s2)
    ensures Kept(live - {from}, s0, s3) && SameBytes(from, to, s0, s3)
  {
    assert to in live + {to} - {from};
    assert s3[to.Usable()..to.Usable() + from.Inner()] == s2[to.Usable()..to.Usable() + from.Inner()];
    assert s1[from.Usable()..from.End()] == s0[from.Usable()..from.End()];
  }
}
