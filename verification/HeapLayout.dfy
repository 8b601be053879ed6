/**
 The blocks of a heap region, pw_allocator/block.cc, as a sequence. Pointers are offsets into the region;
 headers and free-list nodes are 16 bytes, alignment is 8, and there is no poisoning.
 */
module HeapLayout {

  const HEADER_SIZE := 16
  const NODE_SIZE := 16
  const ALIGNMENT := 8

  datatype Block = Block(start: nat, outer: nat, used: bool) {
    function Inner(): int { outer - HEADER_SIZE }
    function Usable(): nat { start + HEADER_SIZE }
    function End(): nat { start + outer }
  }

  type Blocks = seq<Block>

  /** The blocks lie end to end from 0 to the end of the region, each aligned and with room for its header. */
  ghost predicate Tiled(blocks: Blocks, size: nat) {
    && blocks != [] && blocks[0].start == 0
    && (forall i :: 0 <= i < |blocks| ==> HEADER_SIZE <= blocks[i].outer && blocks[i].start % ALIGNMENT == 0)
    && (forall i :: 0 <= i < |blocks| - 1 ==> blocks[i].End() == blocks[i + 1].start)
    && blocks[|blocks| - 1].End() == size
  }

  /** No two neighbours are both free. */
  ghost predicate Coalesced(blocks: Blocks) {
    forall i :: 0 <= i < |blocks| - 1 ==> blocks[i].used || blocks[i + 1].used
  }

  lemma {:induction false} BlocksInOrder(blocks: Blocks, size: nat, i: nat, j: nat)
    requires Tiled(blocks, size) && i < j < |blocks|
    ensures blocks[i].End() <= blocks[j].start
  {
    if i + 1 < j {
      BlocksInOrder(blocks, size, i, j - 1);
    }
  }

  lemma BlockWithin(blocks: Blocks, size: nat, i: nat)
    requires Tiled(blocks, size) && i < |blocks|
    ensures blocks[i].End() <= size
  {
    if i + 1 < |blocks| {
      BlocksInOrder(blocks, size, i, |blocks| - 1);
    }
  }

  /** A block is known by its start. */
  lemma BlockByStart(blocks: Blocks, size: nat, i: nat, j: nat)
    requires Tiled(blocks, size) && i < |blocks| && j < |blocks| && blocks[i].start == blocks[j].start
    ensures i == j
  {
    if i < j {
      BlocksInOrder(blocks, size, i, j);
    } else if j < i {
      BlocksInOrder(blocks, size, j, i);
    }
  }

  // ---------------------------------------------------------------- headers

  datatype Option<+T> = None | Some(value: T)

  /** A header: the next block with its two flag bits, and the previous one. */
  datatype Header = Header(next: nat, used: bool, last: bool, prev: Option<nat>)

  type Headers = map<nat, Header>

  function HeaderOf(blocks: Blocks, i: nat): Header
    requires i < |blocks|
  {
    Header(blocks[i].End(), blocks[i].used, i + 1 == |blocks|, if i == 0 then None else Some(blocks[i - 1].start))
  }

  ghost predicate LinkedAt(headers: Headers, blocks: Blocks, i: nat)
    requires i < |blocks|
  {
    blocks[i].start in headers && headers[blocks[i].start] == HeaderOf(blocks, i)
  }

  /** The headers in memory form a doubly linked list of exactly these blocks. */
  ghost predicate Linked(headers: Headers, blocks: Blocks) {
    forall i :: 0 <= i < |blocks| ==> LinkedAt(headers, blocks, i)
  }

  // ---------------------------------------------------------------- splitting and merging

  function RoundedUp(n: nat): (r: nat)
    ensures n <= r < n + ALIGNMENT && r % ALIGNMENT == 0
  {
    if n % ALIGNMENT == 0 then n else n - n % ALIGNMENT + ALIGNMENT
  }

  function SplitAt(blocks: Blocks, i: nat, inner: nat): Blocks
    requires i < |blocks| && HEADER_SIZE + inner + HEADER_SIZE <= blocks[i].outer
  {
    var b := blocks[i];
    blocks[..i]
    + [Block(b.start, HEADER_SIZE + inner, b.used),
       Block(b.start + HEADER_SIZE + inner, b.outer - HEADER_SIZE - inner, b.used)]
    + blocks[i + 1..]
  }

  function MergeAt(blocks: Blocks, i: nat): Blocks
    requires i + 1 < |blocks|
  {
    blocks[..i] + [Block(blocks[i].start, blocks[i].outer + blocks[i + 1].outer, blocks[i].used)] + blocks[i + 2..]
  }

  lemma SplitElements(blocks: Blocks, i: nat, inner: nat, k: nat)
    requires i < |blocks| && HEADER_SIZE + inner + HEADER_SIZE <= blocks[i].outer && k <= |blocks|
    ensures |SplitAt(blocks, i, inner)| == |blocks| + 1
    ensures k < i ==> SplitAt(blocks, i, inner)[k] == blocks[k]
    ensures i + 1 < k ==> SplitAt(blocks, i, inner)[k] == blocks[k - 1]
  {
  }

  lemma SplitTiled(blocks: Blocks, size: nat, i: nat, inner: nat)
    requires Tiled(blocks, size) && i < |blocks| && inner % ALIGNMENT == 0
    requires HEADER_SIZE + inner + HEADER_SIZE <= blocks[i].outer
    ensures Tiled(SplitAt(blocks, i, inner), size)
  {
    var blocks' := SplitAt(blocks, i, inner);
    forall k | 0 <= k < |blocks'|
      ensures HEADER_SIZE <= blocks'[k].outer && blocks'[k].start % ALIGNMENT == 0
      ensures k + 1 < |blocks'| ==> blocks'[k].End() == blocks'[k + 1].start
    {
      SplitElements(blocks, i, inner, k);
      if k + 1 < |blocks'| {
        SplitElements(blocks, i, inner, k + 1);
      }
    }
    SplitElements(blocks, i, inner, |blocks|);
    SplitElements(blocks, i, inner, 0);
  }

  lemma MergeElements(blocks: Blocks, i: nat, k: nat)
    requires i + 1 < |blocks| && k < |blocks| - 1
    ensures |MergeAt(blocks, i)| == |blocks| - 1
    ensures k < i ==> MergeAt(blocks, i)[k] == blocks[k]
    ensures i < k ==> MergeAt(blocks, i)[k] == blocks[k + 1]
    ensures k == i ==>
      MergeAt(blocks, i)[k] == Block(blocks[i].start, blocks[i].outer + blocks[i + 1].outer, blocks[i].used)
  {
  }

  lemma MergeTiled(blocks: Blocks, size: nat, i: nat)
    requires Tiled(blocks, size) && i + 1 < |blocks|
    ensures Tiled(MergeAt(blocks, i), size)
  {
    var blocks' := MergeAt(blocks, i);
    forall k | 0 <= k < |blocks'|
      ensures HEADER_SIZE <= blocks'[k].outer && blocks'[k].start % ALIGNMENT == 0
      ensures k + 1 < |blocks'| ==> blocks'[k].End() == blocks'[k + 1].start
    {
      MergeElements(blocks, i, k);
      if k + 1 < |blocks'| {
        MergeElements(blocks, i, k + 1);
      }
    }
    MergeElements(blocks, i, |blocks| - 2);
    MergeElements(blocks, i, 0);
  }

  /** What Block::Split writes: the new header, the next block's back link, and this block's next link. */
  function SplitHeaders(headers: Headers, start: nat, inner: nat): Headers
    requires start in headers && (!headers[start].last ==> headers[start].next in headers)
  {
    var h := headers[start];
    var fresh' := start + HEADER_SIZE + inner;
    var relinked := if h.last then headers else headers[h.next := headers[h.next].(prev := Some(fresh'))];
    relinked[fresh' := Header(h.next, h.used, h.last, Some(start))][start := Header(fresh', h.used, false, h.prev)]
  }

  lemma SplitLinked(headers: Headers, blocks: Blocks, size: nat, i: nat, inner: nat)
    requires Tiled(blocks, size) && Linked(headers, blocks) && i < |blocks| && !blocks[i].used
    requires HEADER_SIZE + inner + HEADER_SIZE <= blocks[i].outer
    ensures blocks[i].start in headers
    ensures !headers[blocks[i].start].last ==> headers[blocks[i].start].next in headers
    ensures Linked(SplitHeaders(headers, blocks[i].start, inner), SplitAt(blocks, i, inner))
  {
    var blocks' := SplitAt(blocks, i, inner);
    assert LinkedAt(headers, blocks, i);
    if i + 1 < |blocks| {
      assert LinkedAt(headers, blocks, i + 1);
    }
    var headers' := SplitHeaders(headers, blocks[i].start, inner);
    forall k | 0 <= k < |blocks'|
      ensures LinkedAt(headers', blocks', k)
    {
      SplitLinkedAt(headers, blocks, size, i, inner, k);
    }
  }

  lemma SplitLinkedAt(headers: Headers, blocks: Blocks, size: nat, i: nat, inner: nat, k: nat)
    requires Tiled(blocks, size) && Linked(headers, blocks) && i < |blocks| && !blocks[i].used
    requires HEADER_SIZE + inner + HEADER_SIZE <= blocks[i].outer && k <= |blocks|
    requires blocks[i].start in headers
    requires !headers[blocks[i].start].last ==> headers[blocks[i].start].next in headers
    ensures LinkedAt(SplitHeaders(headers, blocks[i].start, inner), SplitAt(blocks, i, inner), k)
  {
    hide SplitAt;
    assert LinkedAt(headers, blocks, i);
    SplitPair(blocks, i, inner);
    if k < i {
      SplitLinkedBefore(headers, blocks, size, i, inner, k);
    } else if k > i + 1 {
      SplitLinkedBehind(headers, blocks, size, i, inner, k);
    } else if i > 0 {
      SplitElements(blocks, i, inner, i - 1);
    }
  }

  lemma SplitPair(blocks: Blocks, i: nat, inner: nat)
    requires i < |blocks| && HEADER_SIZE + inner + HEADER_SIZE <= blocks[i].outer
    ensures |SplitAt(blocks, i, inner)| == |blocks| + 1
    ensures SplitAt(blocks, i, inner)[i] == Block(blocks[i].start, HEADER_SIZE + inner, blocks[i].used)
    ensures SplitAt(blocks, i, inner)[i + 1]
         == Block(blocks[i].start + HEADER_SIZE + inner, blocks[i].outer - HEADER_SIZE - inner, blocks[i].used)
  {
  }

  lemma SplitLinkedBefore(headers: Headers, blocks: Blocks, size: nat, i: nat, inner: nat, k: nat)
    requires Tiled(blocks, size) && Linked(headers, blocks) && k < i < |blocks| && LinkedAt(headers, blocks, i)
    requires HEADER_SIZE + inner + HEADER_SIZE <= blocks[i].outer
    requires !headers[blocks[i].start].last ==> headers[blocks[i].start].next in headers
    ensures LinkedAt(SplitHeaders(headers, blocks[i].start, inner), SplitAt(blocks, i, inner), k)
  {
    hide SplitAt;
    assert LinkedAt(headers, blocks, k);
    BlocksInOrder(blocks, size, k, i);
    SplitElements(blocks, i, inner, k);
    if k > 0 {
      SplitElements(blocks, i, inner, k - 1);
    }
  }

  lemma SplitLinkedBehind(headers: Headers, blocks: Blocks, size: nat, i: nat, inner: nat, k: nat)
    requires Tiled(blocks, size) && Linked(headers, blocks) && i + 1 < k <= |blocks| && LinkedAt(headers, blocks, i)
    requires HEADER_SIZE + inner + HEADER_SIZE <= blocks[i].outer
    requires !headers[blocks[i].start].last ==> headers[blocks[i].start].next in headers
    ensures LinkedAt(SplitHeaders(headers, blocks[i].start, inner), SplitAt(blocks, i, inner), k)
  {
    hide SplitAt;
    assert LinkedAt(headers, blocks, k - 1);
    BlocksInOrder(blocks, size, i, k - 1);
    SplitElements(blocks, i, inner, k);
    SplitElements(blocks, i, inner, k - 1);
    SplitPair(blocks, i, inner);
    if k - 1 > i + 1 {
      BlocksInOrder(blocks, size, i + 1, k - 1);
    }
  }

  /** What Block::MergeNext writes: this block's next link, and the back link of the one behind. */
  function MergeHeaders(headers: Headers, start: nat): Headers
    requires start in headers && headers[start].next in headers
    requires !headers[headers[start].next].last ==> headers[headers[start].next].next in headers
  {
    var n := headers[headers[start].next];
    var merged := headers[start := Header(n.next, n.used, n.last, headers[start].prev)];
    if n.last then merged else merged[n.next := merged[n.next].(prev := Some(start))]
  }

  lemma MergeLinked(headers: Headers, blocks: Blocks, size: nat, i: nat)
    requires Tiled(blocks, size) && Linked(headers, blocks)
    requires i + 1 < |blocks| && !blocks[i].used && !blocks[i + 1].used
    ensures blocks[i].start in headers && headers[blocks[i].start].next in headers
    ensures var n := headers[headers[blocks[i].start].next]; !n.last ==> n.next in headers
    ensures Linked(MergeHeaders(headers, blocks[i].start), MergeAt(blocks, i))
  {
    assert LinkedAt(headers, blocks, i) && LinkedAt(headers, blocks, i + 1);
    if i + 2 < |blocks| {
      assert LinkedAt(headers, blocks, i + 2);
    }
    var blocks' := MergeAt(blocks, i);
    var headers' := MergeHeaders(headers, blocks[i].start);
    forall k | 0 <= k < |blocks'|
      ensures LinkedAt(headers', blocks', k)
    {
      MergeLinkedAt(headers, blocks, size, i, k);
    }
  }

  lemma MergeLinkedAt(headers: Headers, blocks: Blocks, size: nat, i: nat, k: nat)
    requires Tiled(blocks, size) && Linked(headers, blocks)
    requires i + 1 < |blocks| && !blocks[i].used && !blocks[i + 1].used && k < |blocks| - 1
    requires blocks[i].start in headers && headers[blocks[i].start].next in headers
    requires var n := headers[headers[blocks[i].start].next]; !n.last ==> n.next in headers
    ensures LinkedAt(MergeHeaders(headers, blocks[i].start), MergeAt(blocks, i), k)
  {
    hide MergeAt;
    assert LinkedAt(headers, blocks, i) && LinkedAt(headers, blocks, i + 1);
    MergeElements(blocks, i, k);
    if k > 0 {
      MergeElements(blocks, i, k - 1);
    }
    if k < i {
      assert LinkedAt(headers, blocks, k);
      BlocksInOrder(blocks, size, k, i);
    } else if k > i {
      assert LinkedAt(headers, blocks, k + 1);
      BlocksInOrder(blocks, size, i, k + 1);
      if k > i + 1 {
        BlocksInOrder(blocks, size, i + 2, k + 1);
      }
    }
  }

  lemma MarkLinked(headers: Headers, blocks: Blocks, size: nat, i: nat, used: bool)
    requires Tiled(blocks, size) && Linked(headers, blocks) && i < |blocks|
    ensures blocks[i].start in headers
    ensures Tiled(blocks[i := blocks[i].(used := used)], size)
    ensures Linked(headers[blocks[i].start := headers[blocks[i].start].(used := used)], blocks[i := blocks[i].(used := used)])
  {
    assert LinkedAt(headers, blocks, i);
    var blocks' := blocks[i := blocks[i].(used := used)];
    var headers' := headers[blocks[i].start := headers[blocks[i].start].(used := used)];
    forall k | 0 <= k < |blocks'|
      ensures LinkedAt(headers', blocks', k)
    {
      assert LinkedAt(headers, blocks, k);
      if k != i && blocks[k].start == blocks[i].start {
        BlockByStart(blocks, size, i, k);
      }
    }
  }

  // ---------------------------------------------------------------- how much is free

  function FreeBytesOf(b: Block): nat {
    if b.used then 0 else b.outer
  }

  /** The bytes of all free blocks, headers included. */
  function FreeBytes(blocks: Blocks): nat {
    if blocks == [] then 0 else FreeBytes(blocks[..|blocks| - 1]) + FreeBytesOf(blocks[|blocks| - 1])
  }

  lemma {:induction false} FreeBytesConcat(first: Blocks, second: Blocks)
    ensures FreeBytes(first + second) == FreeBytes(first) + FreeBytes(second)
  {
    if second == [] {
      assert first + second == first;
    } else {
      var n := |second| - 1;
      assert (first + second)[..|first + second| - 1] == first + second[..n];
      FreeBytesConcat(first, second[..n]);
    }
  }

  lemma FreeBytesOfOne(b: Block)
    ensures FreeBytes([b]) == FreeBytesOf(b)
  {
    assert [b][..0] == [];
  }

  lemma FreeBytesOfTwo(a: Block, b: Block)
    ensures FreeBytes([a, b]) == FreeBytesOf(a) + FreeBytesOf(b)
  {
    assert [a, b][..1] == [a];
    FreeBytesOfOne(a);
  }

  lemma FreeBytesAround(blocks: Blocks, i: nat, n: nat)
    requires i + n <= |blocks|
    ensures FreeBytes(blocks) == FreeBytes(blocks[..i]) + FreeBytes(blocks[i..i + n]) + FreeBytes(blocks[i + n..])
  {
    assert blocks == blocks[..i] + blocks[i..i + n] + blocks[i + n..];
    FreeBytesConcat(blocks[..i], blocks[i..i + n]);
    FreeBytesConcat(blocks[..i] + blocks[i..i + n], blocks[i + n..]);
  }

  /** Splitting and joining free blocks neither loses nor makes free bytes, and a mark moves those of its block. */
  lemma SplitFreeBytes(blocks: Blocks, i: nat, inner: nat)
    requires i < |blocks| && HEADER_SIZE + inner + HEADER_SIZE <= blocks[i].outer
    ensures FreeBytes(SplitAt(blocks, i, inner)) == FreeBytes(blocks)
  {
    var b, split := blocks[i], SplitAt(blocks, i, inner);
    var head, tail := split[i], split[i + 1];
    FreeBytesAround(blocks, i, 1);
    FreeBytesAround(split, i, 2);
    assert blocks[i..i + 1] == [b] && split[i..i + 2] == [head, tail];
    assert split[..i] == blocks[..i] && split[i + 2..] == blocks[i + 1..];
    FreeBytesOfOne(b);
    FreeBytesOfTwo(head, tail);
  }

  lemma MergeFreeBytes(blocks: Blocks, i: nat)
    requires i + 1 < |blocks| && !blocks[i].used && !blocks[i + 1].used
    ensures FreeBytes(MergeAt(blocks, i)) == FreeBytes(blocks)
  {
    var a, b, merged := blocks[i], blocks[i + 1], MergeAt(blocks, i);
    var joined := merged[i];
    FreeBytesAround(blocks, i, 2);
    FreeBytesAround(merged, i, 1);
    assert blocks[i..i + 2] == [a, b] && merged[i..i + 1] == [joined];
    assert merged[..i] == blocks[..i] && merged[i + 1..] == blocks[i + 2..];
    FreeBytesOfTwo(a, b);
    FreeBytesOfOne(joined);
  }

  lemma MarkFreeBytes(blocks: Blocks, i: nat, used: bool)
    requires i < |blocks|
    ensures FreeBytes(blocks[i := blocks[i].(used := used)]) + FreeBytesOf(blocks[i])
         == FreeBytes(blocks) + if used then 0 else blocks[i].outer
  {
    var b, marked := blocks[i].(used := used), blocks[i := blocks[i].(used := used)];
    FreeBytesAround(blocks, i, 1);
    FreeBytesAround(marked, i, 1);
    assert blocks[i..i + 1] == [blocks[i]] && marked[i..i + 1] == [b];
    assert marked[..i] == blocks[..i] && marked[i + 1..] == blocks[i + 1..];
    FreeBytesOfOne(blocks[i]);
    FreeBytesOfOne(b);
  }

  /** Every byte of the region is in a free block or in one in use. */
  function UsedBytes(blocks: Blocks): nat {
    if blocks == [] then 0
    else UsedBytes(blocks[..|blocks| - 1]) + blocks[|blocks| - 1].outer - FreeBytesOf(blocks[|blocks| - 1])
  }

  lemma {:induction false} FreeAndUsed(blocks: Blocks, size: nat)
    requires Tiled(blocks, size)
    ensures FreeBytes(blocks) + UsedBytes(blocks) == size
  {
    var n := |blocks| - 1;
    if n == 0 {
      assert blocks[..0] == [];
    } else {
      FreeAndUsed(blocks[..n], blocks[n].start);
    }
  }
}
