/** How the free list of a heap follows its blocks through splits, merges and marks. */
module HeapChunks {
  import opened HeapLayout
  import opened HeapFreeList
  import opened HeapBlocks

  predicate Listable(b: Block) {
    !b.used && NODE_SIZE <= b.Inner()
  }

  ghost predicate IsChunk(blocks: Blocks, skip: set<Block>, o: nat, size: nat) {
    exists b :: b in blocks && b !in skip && Listable(b) && b.Usable() == o && b.Inner() == size
  }

  /** The free list has exactly the free blocks that can hold a node, apart from those that are being worked on. */
  ghost predicate Matches(listed: map<nat, nat>, blocks: Blocks, skip: set<Block>) {
    && (forall b :: b in blocks && b !in skip && Listable(b) ==> b.Usable() in listed && listed[b.Usable()] == b.Inner())
    && (forall o :: o in listed ==> IsChunk(blocks, skip, o, listed[o]))
  }

  lemma MembersApart(blocks: Blocks, size: nat, b: Block, c: Block)
    requires Tiled(blocks, size) && b in blocks && c in blocks && b.start == c.start
    ensures b == c
  {
    var i :| 0 <= i < |blocks| && blocks[i] == b;
    var j :| 0 <= j < |blocks| && blocks[j] == c;
    BlockByStart(blocks, size, i, j);
  }

  lemma MemberOnce(blocks: Blocks, size: nat, i: nat, k: nat)
    requires Tiled(blocks, size) && i < |blocks| && k < |blocks| && blocks[i] == blocks[k]
    ensures i == k
  {
    BlockByStart(blocks, size, i, k);
  }

  /** The two parts of a block that is split. */
  function HeadPart(b: Block, inner: nat): Block {
    Block(b.start, HEADER_SIZE + inner, b.used)
  }

  function TailPart(b: Block, inner: nat): Block
    requires HEADER_SIZE + inner <= b.outer
  {
    Block(b.start + HEADER_SIZE + inner, b.outer - HEADER_SIZE - inner, b.used)
  }

  lemma SplitMembers(blocks: Blocks, size: nat, i: nat, inner: nat)
    requires Tiled(blocks, size) && i < |blocks| && HEADER_SIZE + inner + HEADER_SIZE <= blocks[i].outer
    ensures var whole := blocks[i];
      forall b :: b in SplitAt(blocks, i, inner) <==>
        (b in blocks && b != whole) || b == HeadPart(whole, inner) || b == TailPart(whole, inner)
  {
    var blocks' := SplitAt(blocks, i, inner);
    SplitPair(blocks, i, inner);
    forall b | b in blocks && b != blocks[i]
      ensures b in blocks'
    {
      var k :| 0 <= k < |blocks| && blocks[k] == b;
      SplitElements(blocks, i, inner, if k < i then k else k + 1);
    }
    forall b | b in blocks'
      ensures (b in blocks && b != blocks[i]) || b == HeadPart(blocks[i], inner) || b == TailPart(blocks[i], inner)
    {
      var k :| 0 <= k < |blocks'| && blocks'[k] == b;
      SplitElements(blocks, i, inner, k);
      if k < i {
        BlocksInOrder(blocks, size, k, i);
      } else if i + 1 < k {
        BlocksInOrder(blocks, size, i, k - 1);
      }
    }
  }

  function Merged(a: Block, b: Block): Block {
    Block(a.start, a.outer + b.outer, a.used)
  }

  lemma MergeMembers(blocks: Blocks, size: nat, i: nat)
    requires Tiled(blocks, size) && i + 1 < |blocks|
    ensures forall b :: b in MergeAt(blocks, i) <==>
      (b in blocks && b != blocks[i] && b != blocks[i + 1]) || b == Merged(blocks[i], blocks[i + 1])
  {
    var blocks' := MergeAt(blocks, i);
    assert blocks'[i] == Merged(blocks[i], blocks[i + 1]);
    forall b | b in blocks && b != blocks[i] && b != blocks[i + 1]
      ensures b in blocks'
    {
      var k :| 0 <= k < |blocks| && blocks[k] == b;
      MergeElements(blocks, i, if k < i then k else k - 1);
    }
    forall b | b in blocks'
      ensures (b in blocks && b != blocks[i] && b != blocks[i + 1]) || b == Merged(blocks[i], blocks[i + 1])
    {
      var k :| 0 <= k < |blocks'| && blocks'[k] == b;
      MergeElements(blocks, i, k);
      if k < i {
        BlocksInOrder(blocks, size, k, i);
        BlocksInOrder(blocks, size, k, i + 1);
      } else if i < k {
        BlocksInOrder(blocks, size, i, k + 1);
        BlocksInOrder(blocks, size, i + 1, k + 1);
      }
    }
  }

  lemma MarkMembers(blocks: Blocks, size: nat, i: nat, used: bool)
    requires Tiled(blocks, size) && i < |blocks|
    ensures forall b :: b in blocks[i := blocks[i].(used := used)] <==>
      (b in blocks && b != blocks[i]) || b == blocks[i].(used := used)
  {
    var blocks' := blocks[i := blocks[i].(used := used)];
    assert blocks'[i] == blocks[i].(used := used);
    forall b | b in blocks && b != blocks[i]
      ensures b in blocks'
    {
      var k :| 0 <= k < |blocks| && blocks[k] == b;
      assert blocks'[k] == b;
    }
    forall b | b in blocks'
      ensures (b in blocks && b != blocks[i]) || b == blocks[i].(used := used)
    {
      var k :| 0 <= k < |blocks'| && blocks'[k] == b;
      if k != i {
        if blocks[k] == blocks[i] {
          MemberOnce(blocks, size, i, k);
        }
      }
    }
  }

  // ---------------------------------------------------------------- live bytes

  /** The bytes of every allocation in `live` are as they were. */
  ghost predicate Kept(live: set<Block>, before: seq<Byte>, after: seq<Byte>) {
    && |before| == |after|
    && forall b, x :: b in live && b.Usable() <= x < b.End() && 0 <= x < |before| ==> after[x] == before[x]
  }

  ghost function Live(blocks: Blocks): set<Block> {
    set b | b in blocks && b.used
  }

  lemma UsableKeptIsKept(blocks: Blocks, except: int, before: seq<Byte>, after: seq<Byte>, live: set<Block>)
    requires UsableKept(blocks, except, before, after) && live <= Live(blocks)
    requires 0 <= except < |blocks| ==> !blocks[except].used
    ensures Kept(live, before, after)
  {
    forall b, x | b in live && b.Usable() <= x < b.End() && 0 <= x < |before|
      ensures after[x] == before[x]
    {
      var j :| 0 <= j < |blocks| && blocks[j] == b;
      assert InUsable(blocks, j, x);
    }
  }

  /** What lies in a chunk of the free list lies in no allocation. */
  lemma OutsideIsKept(blocks: Blocks, size: nat, listed: map<nat, nat>, skip: set<Block>, before: seq<Byte>, after: seq<Byte>, live: set<Block>)
    requires Tiled(blocks, size) && Matches(listed, blocks, skip) && SameOutside(listed, before, after)
    requires live <= Live(blocks)
    ensures Kept(live, before, after)
  {
    forall b, x | b in live && b.Usable() <= x < b.End() && 0 <= x < |before|
      ensures after[x] == before[x]
    {
      if InListed(listed, x) {
        var c :| c in listed && c <= x < c + listed[c];
        assert IsChunk(blocks, skip, c, listed[c]);
        var f :| f in blocks && f !in skip && Listable(f) && f.Usable() == c && f.Inner() == listed[c];
        LiveApart(blocks, size, b, f, x);
      }
    }
  }

  lemma LiveApart(blocks: Blocks, size: nat, b: Block, f: Block, x: nat)
    requires Tiled(blocks, size) && b in blocks && f in blocks
    requires b.Usable() <= x < b.End() && f.Usable() <= x < f.End()
    ensures b == f
  {
    var i :| 0 <= i < |blocks| && blocks[i] == b;
    var j :| 0 <= j < |blocks| && blocks[j] == f;
    assert InUsable(blocks, i, x) && InUsable(blocks, j, x);
    UsableApart(blocks, size, i, j, x);
  }

  lemma ChunkIsKept(blocks: Blocks, size: nat, f: Block, before: seq<Byte>, after: seq<Byte>, live: set<Block>)
    requires Tiled(blocks, size) && f in blocks && !f.used && live <= Live(blocks) && |before| == |after|
    requires forall x :: 0 <= x < |before| && !(f.Usable() <= x < f.End()) ==> after[x] == before[x]
    ensures Kept(live, before, after)
  {
    forall b, x | b in live && b.Usable() <= x < b.End() && 0 <= x < |before|
      ensures after[x] == before[x]
    {
      if f.Usable() <= x < f.End() {
        LiveApart(blocks, size, b, f, x);
      }
    }
  }

  lemma KeptTransitive(live: set<Block>, a: seq<Byte>, b: seq<Byte>, c: seq<Byte>)
    requires Kept(live, a, b) && Kept(live, b, c)
    ensures Kept(live, a, c)
  {
  }

  // ---------------------------------------------------------------- what each step does to the free list

  lemma MatchesRemove(listed: map<nat, nat>, blocks: Blocks, size: nat, skip: set<Block>, b: Block)
    requires Tiled(blocks, size) && Matches(listed, blocks, skip) && b in blocks && b !in skip && !b.used
    ensures b.Usable() in listed ==> listed[b.Usable()] == b.Inner()
    ensures Matches(listed - {b.Usable()}, blocks, skip + {b})
  {
    var listed' := listed - {b.Usable()};
    if b.Usable() in listed {
      assert IsChunk(blocks, skip, b.Usable(), listed[b.Usable()]);
      var c :| c in blocks && c !in skip && Listable(c) && c.Usable() == b.Usable() && c.Inner() == listed[b.Usable()];
      MembersApart(blocks, size, b, c);
    }
    forall c | c in blocks && c !in skip + {b} && Listable(c)
      ensures c.Usable() in listed' && listed'[c.Usable()] == c.Inner()
    {
      if c.Usable() == b.Usable() {
        MembersApart(blocks, size, b, c);
      }
    }
    forall o | o in listed'
      ensures IsChunk(blocks, skip + {b}, o, listed'[o])
    {
      assert IsChunk(blocks, skip, o, listed[o]);
      var c :| c in blocks && c !in skip && Listable(c) && c.Usable() == o && c.Inner() == listed[o];
      assert c != b;
    }
  }

  /** A chunk that is being worked on is not listed. */
  lemma SkippedIsUnlisted(listed: map<nat, nat>, blocks: Blocks, size: nat, skip: set<Block>, b: Block)
    requires Tiled(blocks, size) && Matches(listed, blocks, skip) && b in blocks && b in skip
    ensures b.Usable() !in listed
  {
    if b.Usable() in listed {
      assert IsChunk(blocks, skip, b.Usable(), listed[b.Usable()]);
      var c :| c in blocks && c !in skip && Listable(c) && c.Usable() == b.Usable();
      MembersApart(blocks, size, b, c);
    }
  }

  lemma MatchesAdd(listed: map<nat, nat>, blocks: Blocks, size: nat, skip: set<Block>, b: Block)
    requires Tiled(blocks, size) && Matches(listed, blocks, skip) && b in blocks && b in skip && !b.used && 0 <= b.Inner()
    ensures Matches(if b.Inner() < NODE_SIZE then listed else listed[b.Usable() := b.Inner()], blocks, skip - {b})
  {
    SkippedIsUnlisted(listed, blocks, size, skip, b);
    var listed' := if b.Inner() < NODE_SIZE then listed else listed[b.Usable() := b.Inner()];
    forall o | o in listed'
      ensures IsChunk(blocks, skip - {b}, o, listed'[o])
    {
      if o in listed {
        assert IsChunk(blocks, skip, o, listed[o]);
        var c :| c in blocks && c !in skip && Listable(c) && c.Usable() == o && c.Inner() == listed[o];
        assert c !in skip - {b};
      } else {
        assert b !in skip - {b} && Listable(b);
      }
    }
  }

  /** When only blocks that are being worked on change, the free list still matches. */
  lemma MatchesElsewhere(listed: map<nat, nat>, blocks: Blocks, skip: set<Block>, blocks': Blocks, skip': set<Block>)
    requires Matches(listed, blocks, skip)
    requires forall b :: b in blocks && b !in skip && Listable(b) <==> b in blocks' && b !in skip' && Listable(b)
    ensures Matches(listed, blocks', skip')
  {
    forall o | o in listed
      ensures IsChunk(blocks', skip', o, listed[o])
    {
      assert IsChunk(blocks, skip, o, listed[o]);
    }
  }
}
