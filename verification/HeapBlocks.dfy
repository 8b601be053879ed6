/** Blocks rewired in place: pw_allocator/block.cc. A block is named by the offset of its header. */
module HeapBlocks {
  import opened HeapLayout
  import opened HeapFreeList

  datatype BlockStatus = VALID | MISALIGNED | PREV_MISMATCHED | NEXT_MISMATCHED

  ghost predicate InUsable(blocks: Blocks, j: nat, x: nat) {
    j < |blocks| && blocks[j].Usable() <= x < blocks[j].End()
  }

  /** The usable bytes of all these blocks but one, if any is named, are as they were. */
  ghost predicate UsableKept(blocks: Blocks, except: int, before: seq<Byte>, after: seq<Byte>) {
    && |before| == |after|
    && forall j: nat, x: nat :: j != except && InUsable(blocks, j, x) && x < |before| ==> after[x] == before[x]
  }

  /** Headers are not part of any usable space. */
  lemma HeaderApart(blocks: Blocks, size: nat, i: nat, j: nat, x: nat)
    requires Tiled(blocks, size) && i < |blocks| && InUsable(blocks, j, x)
    ensures !(blocks[i].start <= x < blocks[i].start + HEADER_SIZE)
  {
    if i < j {
      BlocksInOrder(blocks, size, i, j);
    } else if j < i {
      BlocksInOrder(blocks, size, j, i);
    }
  }

  /** Usable spaces of different blocks do not overlap. */
  lemma UsableApart(blocks: Blocks, size: nat, i: nat, j: nat, x: nat)
    requires Tiled(blocks, size) && InUsable(blocks, i, x) && InUsable(blocks, j, x)
    ensures i == j
  {
    if i < j {
      BlocksInOrder(blocks, size, i, j);
    } else if j < i {
      BlocksInOrder(blocks, size, j, i);
    }
  }

  class BlockList {
    const mem: array<Byte>
    var headers: Headers
    ghost var blocks: Blocks

    ghost predicate Valid()
      reads this
    {
      Tiled(blocks, mem.Length) && Linked(headers, blocks)
    }

    // Block::Init, on a region that is aligned and large enough. The size is a multiple of four, as the two low
    // bits of the end pointer become flags.
    constructor (mem: array<Byte>)
      requires HEADER_SIZE <= mem.Length && mem.Length % 4 == 0
      ensures Valid() && this.mem == mem && blocks == [Block(0, mem.Length, false)]
    {
      this.mem := mem;
      headers := map[0 := Header(mem.Length, false, true, None)];
      blocks := [Block(0, mem.Length, false)];
    }

    /** A header is written over its sixteen bytes. */
    method Scribble(b: nat)
      requires b + HEADER_SIZE <= mem.Length
      modifies mem
      ensures forall x :: 0 <= x < mem.Length && !(b <= x < b + HEADER_SIZE) ==> mem[x] == old(mem[x])
    {
      for k := 0 to HEADER_SIZE
        invariant forall x :: 0 <= x < mem.Length && !(b <= x < b + HEADER_SIZE) ==> mem[x] == old(mem[x])
      {
        mem[b + k] := *;
      }
    }

    method WriteHeader(b: nat, h: Header, ghost j: nat)
      requires Tiled(blocks, mem.Length) && j < |blocks| && blocks[j].start == b
      modifies this`headers, mem
      ensures headers == old(headers)[b := h]
      ensures UsableKept(blocks, -1, old(mem[..]), mem[..])
    {
      BlockWithin(blocks, mem.Length, j);
      Scribble(b);
      headers := headers[b := h];
      forall i: nat, x: nat | InUsable(blocks, i, x) && x < mem.Length
        ensures mem[x] == old(mem[x])
      {
        HeaderApart(blocks, mem.Length, j, i, x);
      }
    }

    lemma Find(i: nat)
      requires Valid() && i < |blocks|
      ensures blocks[i].start in headers && headers[blocks[i].start] == HeaderOf(blocks, i)
      ensures HEADER_SIZE <= blocks[i].outer && blocks[i].End() <= mem.Length
    {
      assert LinkedAt(headers, blocks, i);
      BlockWithin(blocks, mem.Length, i);
    }

    /** The checks of CrashIfInvalid never fail. */
    method CheckStatus(b: nat, ghost i: nat) returns (status: BlockStatus)
      requires Valid() && i < |blocks| && blocks[i].start == b
      ensures status == VALID
    {
      Find(i);
      if b % ALIGNMENT != 0 {
        return MISALIGNED;
      }
      if i + 1 < |blocks| {
        Find(i + 1);
      }
      if i > 0 {
        Find(i - 1);
      }
      if !headers[b].last && (b >= headers[b].next || Some(b) != headers[headers[b].next].prev) {
        return NEXT_MISMATCHED;
      }
      if headers[b].prev != None && (b <= headers[b].prev.value || b != headers[headers[b].prev.value].next) {
        return PREV_MISMATCHED;
      }
      return VALID;
    }

    method Mark(b: nat, used: bool, ghost i: nat)
      requires Valid() && i < |blocks| && blocks[i].start == b
      modifies this, mem
      ensures Valid() && blocks == old(blocks)[i := old(blocks)[i].(used := used)]
      ensures UsableKept(old(blocks), -1, old(mem[..]), mem[..])
    {
      Find(i);
      MarkLinked(headers, blocks, mem.Length, i, used);
      WriteHeader(b, headers[b].(used := used), i);
      blocks := blocks[i := blocks[i].(used := used)];
    }

    /** Splits a free block in two, if what is left over has room for a header. */
    method Split(b: nat, headInnerSize: nat, ghost i: nat) returns (status: Status, newBlock: nat)
      requires Valid() && i < |blocks| && blocks[i].start == b
      modifies this, mem
      ensures Valid()
      ensures status ==
        var whole := old(blocks)[i];
        if whole.used then FailedPrecondition
        else if whole.Inner() < RoundedUp(headInnerSize) then OutOfRange
        else if whole.Inner() < RoundedUp(headInnerSize) + HEADER_SIZE then ResourceExhausted
        else Ok
      ensures status == Ok ==>
        && blocks == SplitAt(old(blocks), i, RoundedUp(headInnerSize))
        && newBlock == b + HEADER_SIZE + RoundedUp(headInnerSize)
      ensures status != Ok ==> blocks == old(blocks)
      ensures UsableKept(old(blocks), i, old(mem[..]), mem[..])
    {
      hide Linked;
      newBlock := 0;
      Find(i);
      if headers[b].used {
        return FailedPrecondition, 0;
      }
      var aligned := headInnerSize;
      if headInnerSize % ALIGNMENT != 0 {
        aligned := headInnerSize - headInnerSize % ALIGNMENT + ALIGNMENT;
      }
      var innerSize := headers[b].next - b - HEADER_SIZE;
      if aligned > innerSize {
        return OutOfRange, 0;
      }
      if innerSize - aligned < HEADER_SIZE {
        return ResourceExhausted, 0;
      }
      newBlock := b + HEADER_SIZE + aligned;
      RewireSplit(b, newBlock, aligned, i);
      status := Ok;
    }

    /** Creates a header inside block b and links it in. */
    method RewireSplit(b: nat, newBlock: nat, ghost inner: nat, ghost i: nat)
      requires Valid() && i < |blocks| && blocks[i].start == b && !blocks[i].used && inner % ALIGNMENT == 0
      requires newBlock == b + HEADER_SIZE + inner && newBlock + HEADER_SIZE <= blocks[i].End()
      modifies this, mem
      ensures Valid() && blocks == SplitAt(old(blocks), i, inner)
      ensures UsableKept(old(blocks), i, old(mem[..]), mem[..])
    {
      hide Linked, RoundedUp;
      Find(i);
      SplitLinked(headers, blocks, mem.Length, i, inner);
      SplitTiled(blocks, mem.Length, i, inner);
      ghost var expected := SplitHeaders(headers, b, inner);
      var h := headers[b];
      if !h.last {
        Find(i + 1);
        WriteHeader(h.next, headers[h.next].(prev := Some(newBlock)), i + 1);
      }
      ghost var before := mem[..];
      Scribble(newBlock);
      ScribbledInside(blocks, mem.Length, i, newBlock, before, mem[..]);
      headers := headers[newBlock := Header(h.next, h.used, h.last, Some(b))];
      WriteHeader(b, Header(newBlock, h.used, false, h.prev), i);
      assert headers == expected;
      blocks := SplitAt(blocks, i, inner);
    }

    /** Joins a free block with the next one, if that is free too. */
    method MergeNext(b: nat, ghost i: nat) returns (status: Status)
      requires Valid() && i < |blocks| && blocks[i].start == b
      modifies this, mem
      ensures Valid()
      ensures status ==
        if i + 1 == |old(blocks)| then OutOfRange
        else if old(blocks)[i].used || old(blocks)[i + 1].used then FailedPrecondition
        else Ok
      ensures blocks == if status == Ok then MergeAt(old(blocks), i) else old(blocks)
      ensures UsableKept(old(blocks), -1, old(mem[..]), mem[..])
    {
      hide Linked;
      Find(i);
      if headers[b].last {
        return OutOfRange;
      }
      Find(i + 1);
      var next := headers[b].next;
      if headers[b].used || headers[next].used {
        return FailedPrecondition;
      }
      MergeLinked(headers, blocks, mem.Length, i);
      MergeTiled(blocks, mem.Length, i);
      ghost var expected := MergeHeaders(headers, b);
      var n := headers[next];
      WriteHeader(b, Header(n.next, n.used, n.last, headers[b].prev), i);
      if !n.last {
        FindBehind(i, expected);
        WriteHeader(n.next, headers[n.next].(prev := Some(b)), i + 2);
      }
      assert headers == expected;
      blocks := MergeAt(blocks, i);
      status := Ok;
    }

    lemma FindBehind(i: nat, merged: Headers)
      requires Tiled(blocks, mem.Length) && i + 1 < |blocks|
      ensures i + 2 < |blocks| ==> blocks[i + 1].End() == blocks[i + 2].start
    {
    }

    method MergePrev(b: nat, ghost i: nat) returns (status: Status)
      requires Valid() && i < |blocks| && blocks[i].start == b
      modifies this, mem
      ensures Valid()
      ensures status ==
        if i == 0 then OutOfRange
        else if old(blocks)[i - 1].used || old(blocks)[i].used then FailedPrecondition
        else Ok
      ensures blocks == if status == Ok then MergeAt(old(blocks), i - 1) else old(blocks)
      ensures UsableKept(old(blocks), -1, old(mem[..]), mem[..])
    {
      Find(i);
      if headers[b].prev == None {
        return OutOfRange;
      }
      status := MergeNext(headers[b].prev.value, i - 1);
    }
  }

  lemma ScribbledInside(blocks: Blocks, size: nat, i: nat, at: nat, before: seq<Byte>, after: seq<Byte>)
    requires Tiled(blocks, size) && i < |blocks| && |before| == |after| == size
    requires blocks[i].Usable() <= at && at + HEADER_SIZE <= blocks[i].End()
    requires forall x :: 0 <= x < size && !(at <= x < at + HEADER_SIZE) ==> after[x] == before[x]
    ensures UsableKept(blocks, i, before, after)
  {
    forall j: nat, x: nat | j != i && InUsable(blocks, j, x) && x < size
      ensures after[x] == before[x]
    {
      if at <= x < at + HEADER_SIZE {
        UsableApart(blocks, size, i, j, x);
      }
    }
  }
}
