/** The bucketed free list, pw_allocator/freelist.cc: linked lists whose nodes lie in the free chunks. */
module HeapFreeList {
  import opened HeapLayout
  import Varint

  datatype Status = Ok | OutOfRange | NotFound | InvalidArgument | FailedPrecondition | ResourceExhausted

  type Byte = Varint.Byte

  datatype Node = Node(next: Option<nat>, size: nat)

  type Nodes = map<nat, Node>

  /** The first bucket whose chunks may be this large, or the last bucket of all. */
  function BucketFor(sizes: seq<nat>, size: nat): (k: nat)
    ensures k <= |sizes|
    ensures forall j :: 0 <= j < k ==> sizes[j] < size
    ensures k < |sizes| ==> size <= sizes[k]
  {
    if sizes == [] || size <= sizes[0] then 0 else 1 + BucketFor(sizes[1..], size)
  }

  function NextOf(list: seq<nat>, k: nat): Option<nat>
    requires k <= |list|
  {
    if k == |list| then None else Some(list[k])
  }

  ghost predicate Distinct(list: seq<nat>) {
    forall i, j :: 0 <= i < j < |list| ==> list[i] != list[j]
  }

  ghost predicate ChainedAt(nodes: Nodes, list: seq<nat>, k: nat)
    requires k < |list|
  {
    list[k] in nodes && nodes[list[k]].next == NextOf(list, k + 1)
  }

  /** From this head on, the nodes in memory are linked in the order of the list. */
  ghost predicate Chained(nodes: Nodes, head: Option<nat>, list: seq<nat>) {
    head == NextOf(list, 0) && forall k :: 0 <= k < |list| ==> ChainedAt(nodes, list, k)
  }

  /** The list has the listed chunks that belong in bucket k, once each, and no others. */
  ghost predicate Holds(sizes: seq<nat>, nodes: Nodes, list: seq<nat>, listed: map<nat, nat>, k: nat) {
    && Distinct(list)
    && (forall o :: o in list ==> o in listed && BucketFor(sizes, listed[o]) == k)
    && (forall o :: o in list && o in nodes ==> nodes[o].size == listed[o])
    && (forall o :: o in listed && BucketFor(sizes, listed[o]) == k ==> o in list)
  }

  ghost predicate Bucket(sizes: seq<nat>, nodes: Nodes, head: Option<nat>, list: seq<nat>, listed: map<nat, nat>, k: nat) {
    Chained(nodes, head, list) && Holds(sizes, nodes, list, listed, k)
  }

  class FreeList {
    const sizes: seq<nat>
    const mem: array<Byte>
    var chunks: seq<Option<nat>>
    var nodes: Nodes
    ghost var lists: seq<seq<nat>>
    // The chunks that are listed, with their sizes.
    ghost var listed: map<nat, nat>

    ghost predicate Valid()
      reads this
    {
      && |chunks| == |lists| == |sizes| + 1
      && (forall k :: 0 <= k < |chunks| ==> Bucket(sizes, nodes, chunks[k], lists[k], listed, k))
      && (forall o :: o in listed ==> NODE_SIZE <= listed[o] && o + listed[o] <= mem.Length)
    }

    constructor (sizes: seq<nat>, mem: array<Byte>)
      ensures Valid() && listed == map[] && this.mem == mem && this.sizes == sizes
    {
      this.sizes := sizes;
      this.mem := mem;
      chunks := seq(|sizes| + 1, _ => None);
      nodes := map[];
      lists := seq(|sizes| + 1, _ => []);
      listed := map[];
    }

    /** A node is written over the first bytes of its chunk. */
    method Scribble(o: nat)
      requires o + NODE_SIZE <= mem.Length
      modifies mem
      ensures forall i :: 0 <= i < mem.Length && !(o <= i < o + NODE_SIZE) ==> mem[i] == old(mem[i])
    {
      for k := 0 to NODE_SIZE
        invariant forall i :: 0 <= i < mem.Length && !(o <= i < o + NODE_SIZE) ==> mem[i] == old(mem[i])
      {
        mem[o + k] := *;
      }
    }

    method FindChunkPtrForSize(size: nat, nonNull: bool) returns (k: nat)
      requires |chunks| == |sizes| + 1
      ensures k <= |sizes|
      ensures k < |sizes| ==> size <= sizes[k] && (nonNull ==> chunks[k] != None)
      ensures forall j :: 0 <= j < k ==> sizes[j] < size || (nonNull && chunks[j] == None)
    {
      k := 0;
      while k < |sizes|
        invariant k <= |sizes|
        invariant forall j :: 0 <= j < k ==> sizes[j] < size || (nonNull && chunks[j] == None)
      {
        if sizes[k] >= size && (!nonNull || chunks[k] != None) {
          break;
        }
        k := k + 1;
      }
    }

    /** Lists a chunk, unless it is too small for a node. */
    method AddChunk(o: nat, size: nat) returns (status: Status)
      requires Valid() && o !in listed && o + size <= mem.Length
      modifies this, mem
      ensures Valid()
      ensures status == if size < NODE_SIZE then OutOfRange else Ok
      ensures listed == if status == Ok then old(listed)[o := size] else old(listed)
      ensures forall i :: 0 <= i < mem.Length && !(o <= i < o + size) ==> mem[i] == old(mem[i])
    {
      hide Chained;
      if size < NODE_SIZE {
        return OutOfRange;
      }
      var k := FindChunkPtrForSize(size, false);
      assert k == BucketFor(sizes, size);
      Scribble(o);
      BucketsAfterAdd(sizes, nodes, chunks, lists, listed, k, o, size);
      nodes := nodes[o := Node(chunks[k], size)];
      chunks := chunks[k := Some(o)];
      lists := lists[k := [o] + lists[k]];
      listed := listed[o := size];
      return Ok;
    }

    /** Finds a listed chunk of at least this size, exactly if there is one. */
    method FindChunk(size: nat) returns (found: Option<nat>, foundSize: nat)
      requires Valid()
      ensures found == None <==> size == 0 || forall o :: o in listed ==> listed[o] < size
      ensures found.Some? ==> found.value in listed && foundSize == listed[found.value] && size <= foundSize
    {
      hide Chained, Holds;
      if size == 0 {
        return None, 0;
      }
      var first := FindChunkPtrForSize(size, true);
      if chunks[first] == None {
        assert first == |sizes|;
        NoneLarge(sizes, nodes, chunks, lists, listed, size, first, |chunks|);
        return None, 0;
      }
      for i := first to |chunks|
        invariant forall k :: first <= k < i ==> forall o :: o in lists[k] ==> o in listed && listed[o] < size
      {
        assert Bucket(sizes, nodes, chunks[i], lists[i], listed, i);
        HeadOf(sizes, nodes, chunks[i], lists[i], listed, i);
        var node := chunks[i];
        ghost var pos := 0;
        while node != None
          invariant pos <= |lists[i]| && node == NextOf(lists[i], pos)
          invariant forall l :: 0 <= l < pos ==> lists[i][l] in listed && listed[lists[i][l]] < size
          decreases |lists[i]| - pos
        {
          NodeAt(sizes, nodes, chunks[i], lists[i], listed, i, pos);
          if nodes[node.value].size >= size {
            return node, nodes[node.value].size;
          }
          node := nodes[node.value].next;
          pos := pos + 1;
        }
      }
      NoneLarge(sizes, nodes, chunks, lists, listed, size, first, |chunks|);
      return None, 0;
    }

    /** Takes a chunk off its list. One that is not listed is not found. */
    method RemoveChunk(o: nat, size: nat) returns (status: Status)
      requires Valid() && (o in listed ==> listed[o] == size)
      modifies this, mem
      ensures Valid()
      ensures status == if o in old(listed) then Ok else NotFound
      ensures listed == old(listed) - {o}
      ensures SameOutside(old(listed), old(mem[..]), mem[..])
    {
      hide Chained, Bucket;
      var k := FindChunkPtrForSize(size, true);
      LooksWhereListed(sizes, nodes, chunks, lists, listed, o, size, k);
      assert Bucket(sizes, nodes, chunks[k], lists[k], listed, k);
      HeadOf(sizes, nodes, chunks[k], lists[k], listed, k);
      if chunks[k] == None {
        return NotFound;
      }
      var node := chunks[k].value;
      if node == o {
        UnlinkFirst(k, o);
        return Ok;
      }
      ghost var pos := 0;
      NodeAt(sizes, nodes, chunks[k], lists[k], listed, k, pos);
      while nodes[node].next != None
        invariant unchanged(this) && mem[..] == old(mem[..])
        invariant pos < |lists[k]| && node == lists[k][pos] && node in nodes
        invariant nodes[node].next == NextOf(lists[k], pos + 1)
        invariant forall l :: 0 <= l <= pos ==> lists[k][l] != o
        decreases |lists[k]| - pos
      {
        var next := nodes[node].next.value;
        NodeAt(sizes, nodes, chunks[k], lists[k], listed, k, pos + 1);
        if next == o {
          UnlinkNext(k, pos, node, o);
          return Ok;
        }
        node := next;
        pos := pos + 1;
      }
      return NotFound;
    }

    method UnlinkFirst(k: nat, o: nat)
      requires Valid() && k < |chunks| && lists[k] != [] && lists[k][0] == o && o in nodes
      modifies this`chunks, this`lists, this`listed
      ensures Valid() && listed == old(listed) - {o}
    {
      hide Chained, Bucket;
      BucketsAfterRemove(sizes, nodes, chunks, lists, listed, k, 0);
      chunks := chunks[k := nodes[o].next];
      listed := listed - {o};
      lists := lists[k := lists[k][..0] + lists[k][1..]];
    }

    method UnlinkNext(k: nat, ghost pos: nat, node: nat, next: nat)
      requires Valid() && k < |chunks| && pos + 1 < |lists[k]|
      requires lists[k][pos] == node && lists[k][pos + 1] == next && node in nodes && next in nodes
      modifies this`nodes, this`lists, this`listed, mem
      ensures Valid() && listed == old(listed) - {next}
      ensures SameOutside(old(listed), old(mem[..]), mem[..])
    {
      hide Chained, Bucket;
      BucketsAfterRemove(sizes, nodes, chunks, lists, listed, k, pos + 1);
      IsListed(sizes, nodes, chunks, lists, listed, k, pos);
      nodes := nodes[node := nodes[node].(next := nodes[next].next)];
      Scribble(node);
      listed := listed - {next};
      lists := lists[k := lists[k][..pos + 1] + lists[k][pos + 2..]];
    }
  }

  /** Bytes outside all listed chunks are the same. */
  ghost predicate SameOutside(listed: map<nat, nat>, before: seq<Byte>, after: seq<Byte>) {
    |before| == |after| && forall i :: 0 <= i < |before| && !InListed(listed, i) ==> after[i] == before[i]
  }

  ghost predicate InListed(listed: map<nat, nat>, i: nat) {
    exists c :: c in listed && c <= i < c + listed[c]
  }

  ghost predicate Buckets(sizes: seq<nat>, nodes: Nodes, chunks: seq<Option<nat>>, lists: seq<seq<nat>>, listed: map<nat, nat>) {
    && |chunks| == |lists| == |sizes| + 1
    && (forall k :: 0 <= k < |chunks| ==> Bucket(sizes, nodes, chunks[k], lists[k], listed, k))
  }

  lemma BucketsAfterAdd(
    sizes: seq<nat>, nodes: Nodes, chunks: seq<Option<nat>>, lists: seq<seq<nat>>, listed: map<nat, nat>, k: nat, o: nat, size: nat)
    requires Buckets(sizes, nodes, chunks, lists, listed) && o !in listed && k == BucketFor(sizes, size)
    ensures Buckets(sizes, nodes[o := Node(chunks[k], size)], chunks[k := Some(o)], lists[k := [o] + lists[k]], listed[o := size])
  {
    hide Chained, Bucket;
    var nodes', listed' := nodes[o := Node(chunks[k], size)], listed[o := size];
    var chunks', lists' := chunks[k := Some(o)], lists[k := [o] + lists[k]];
    forall j | 0 <= j < |chunks|
      ensures Bucket(sizes, nodes', chunks'[j], lists'[j], listed', j)
    {
      assert Bucket(sizes, nodes, chunks[j], lists[j], listed, j);
      BucketAdd(sizes, nodes, chunks[j], lists[j], listed, j, chunks[k], o, size);
    }
  }

  lemma BucketAdd(
    sizes: seq<nat>, nodes: Nodes, head: Option<nat>, list: seq<nat>, listed: map<nat, nat>, j: nat,
    next: Option<nat>, o: nat, size: nat)
    requires Bucket(sizes, nodes, head, list, listed, j) && o !in listed
    requires j == BucketFor(sizes, size) ==> next == head
    ensures if j == BucketFor(sizes, size)
            then Bucket(sizes, nodes[o := Node(next, size)], Some(o), [o] + list, listed[o := size], j)
            else Bucket(sizes, nodes[o := Node(next, size)], head, list, listed[o := size], j)
  {
    hide Chained, Holds;
    AddHolds(sizes, nodes, list, listed, j, next, o, size);
    if j == BucketFor(sizes, size) {
      ChainedAfterAdd(nodes, head, list, o, size);
    } else {
      ChainedSame(nodes, nodes[o := Node(next, size)], head, list);
    }
  }

  lemma AddHolds(
    sizes: seq<nat>, nodes: Nodes, list: seq<nat>, listed: map<nat, nat>, j: nat, next: Option<nat>, o: nat, size: nat)
    requires Holds(sizes, nodes, list, listed, j) && o !in listed
    ensures o !in list && forall l :: 0 <= l < |list| ==> list[l] != o
    ensures Holds(sizes, nodes[o := Node(next, size)], if j == BucketFor(sizes, size) then [o] + list else list,
                  listed[o := size], j)
  {
  }

  /** A list depends only on the nodes that are in it. */
  lemma ChainedSame(nodes: Nodes, nodes': Nodes, head: Option<nat>, list: seq<nat>)
    requires Chained(nodes, head, list)
    requires forall l :: 0 <= l < |list| && list[l] in nodes ==> list[l] in nodes' && nodes'[list[l]].next == nodes[list[l]].next
    ensures Chained(nodes', head, list)
  {
    forall k | 0 <= k < |list|
      ensures ChainedAt(nodes', list, k)
    {
      assert ChainedAt(nodes, list, k);
    }
  }

  lemma ChainedAfterAdd(nodes: Nodes, head: Option<nat>, list: seq<nat>, o: nat, size: nat)
    requires Chained(nodes, head, list) && forall l :: 0 <= l < |list| ==> list[l] != o
    ensures Chained(nodes[o := Node(head, size)], Some(o), [o] + list)
  {
    var nodes', list' := nodes[o := Node(head, size)], [o] + list;
    forall k | 0 <= k < |list'|
      ensures ChainedAt(nodes', list', k)
    {
      if k > 0 {
        assert ChainedAt(nodes, list, k - 1);
      }
    }
  }

  lemma HeadOf(sizes: seq<nat>, nodes: Nodes, head: Option<nat>, list: seq<nat>, listed: map<nat, nat>, k: nat)
    requires Bucket(sizes, nodes, head, list, listed, k)
    ensures head == NextOf(list, 0)
    ensures list != [] ==> list[0] in nodes
  {
    assert list != [] ==> ChainedAt(nodes, list, 0);
  }

  lemma NodeAt(sizes: seq<nat>, nodes: Nodes, head: Option<nat>, list: seq<nat>, listed: map<nat, nat>, k: nat, pos: nat)
    requires Bucket(sizes, nodes, head, list, listed, k) && pos < |list|
    ensures list[pos] in nodes && nodes[list[pos]].next == NextOf(list, pos + 1)
    ensures list[pos] in listed && nodes[list[pos]].size == listed[list[pos]]
  {
    assert ChainedAt(nodes, list, pos);
    assert list[pos] in list;
  }

  lemma IsListed(
    sizes: seq<nat>, nodes: Nodes, chunks: seq<Option<nat>>, lists: seq<seq<nat>>, listed: map<nat, nat>, k: nat, pos: nat)
    requires Buckets(sizes, nodes, chunks, lists, listed) && k < |chunks| && pos < |lists[k]|
    ensures lists[k][pos] in listed
  {
    assert Bucket(sizes, nodes, chunks[k], lists[k], listed, k);
    assert lists[k][pos] in lists[k];
  }

  /** Removing the node at a position: its predecessor, or the bucket's head, is linked to its successor. */
  ghost function Bypassed(nodes: Nodes, list: seq<nat>, pos: nat): Nodes
    requires pos < |list| && (0 < pos ==> list[pos - 1] in nodes)
  {
    if pos == 0 then nodes else nodes[list[pos - 1] := nodes[list[pos - 1]].(next := NextOf(list, pos + 1))]
  }

  lemma BucketsAfterRemove(
    sizes: seq<nat>, nodes: Nodes, chunks: seq<Option<nat>>, lists: seq<seq<nat>>, listed: map<nat, nat>, k: nat, pos: nat)
    requires Buckets(sizes, nodes, chunks, lists, listed) && k < |chunks| && pos < |lists[k]|
    ensures 0 < pos ==> lists[k][pos - 1] in nodes
    ensures lists[k][pos] in nodes && nodes[lists[k][pos]].next == NextOf(lists[k], pos + 1)
    ensures Buckets(sizes, Bypassed(nodes, lists[k], pos),
                    if pos == 0 then chunks[k := NextOf(lists[k], 1)] else chunks,
                    lists[k := lists[k][..pos] + lists[k][pos + 1..]], listed - {lists[k][pos]})
  {
    hide Chained, Bucket;
    assert Bucket(sizes, nodes, chunks[k], lists[k], listed, k);
    NodeAt(sizes, nodes, chunks[k], lists[k], listed, k, pos);
    if pos > 0 {
      NodeAt(sizes, nodes, chunks[k], lists[k], listed, k, pos - 1);
    }
    var nodes', listed' := Bypassed(nodes, lists[k], pos), listed - {lists[k][pos]};
    var chunks' := if pos == 0 then chunks[k := NextOf(lists[k], 1)] else chunks;
    var lists' := lists[k := lists[k][..pos] + lists[k][pos + 1..]];
    forall j | 0 <= j < |chunks|
      ensures Bucket(sizes, nodes', chunks'[j], lists'[j], listed', j)
    {
      assert Bucket(sizes, nodes, chunks[j], lists[j], listed, j);
      if j == k {
        BucketAfterRemove(sizes, nodes, chunks[k], lists[k], listed, k, pos);
      } else {
        BucketElsewhere(sizes, nodes, chunks[j], lists[j], listed, j, chunks[k], lists[k], k, pos);
      }
    }
  }

  lemma BucketElsewhere(
    sizes: seq<nat>, nodes: Nodes, head: Option<nat>, list: seq<nat>, listed: map<nat, nat>, j: nat,
    other: Option<nat>, from: seq<nat>, k: nat, pos: nat)
    requires Bucket(sizes, nodes, head, list, listed, j) && Bucket(sizes, nodes, other, from, listed, k)
    requires j != k && pos < |from|
    ensures 0 < pos ==> from[pos - 1] in nodes
    ensures Bucket(sizes, Bypassed(nodes, from, pos), head, list, listed - {from[pos]}, j)
  {
    hide Chained, Holds;
    NodeAt(sizes, nodes, other, from, listed, k, pos);
    ElsewhereHolds(sizes, nodes, list, listed, j, from, k, pos);
    if pos > 0 {
      NodeAt(sizes, nodes, other, from, listed, k, pos - 1);
      ElsewhereHolds(sizes, nodes, list, listed, j, from, k, pos - 1);
    }
    ChainedSame(nodes, Bypassed(nodes, from, pos), head, list);
  }

  /** No list shares a node with another. */
  lemma ElsewhereHolds(
    sizes: seq<nat>, nodes: Nodes, list: seq<nat>, listed: map<nat, nat>, j: nat, from: seq<nat>, k: nat, pos: nat)
    requires Holds(sizes, nodes, list, listed, j) && Holds(sizes, nodes, from, listed, k) && j != k && pos < |from|
    ensures forall l :: 0 <= l < |list| ==> list[l] != from[pos]
    ensures 0 < pos ==> from[pos - 1] in nodes ==> Holds(sizes, Bypassed(nodes, from, pos), list, listed - {from[pos]}, j)
    ensures pos == 0 ==> Holds(sizes, nodes, list, listed - {from[pos]}, j)
  {
    assert from[pos] in from;
  }

  lemma BucketAfterRemove(
    sizes: seq<nat>, nodes: Nodes, head: Option<nat>, list: seq<nat>, listed: map<nat, nat>, k: nat, pos: nat)
    requires Bucket(sizes, nodes, head, list, listed, k) && pos < |list|
    ensures 0 < pos ==> list[pos - 1] in nodes
    ensures Bucket(sizes, Bypassed(nodes, list, pos), if pos == 0 then NextOf(list, 1) else head,
                   list[..pos] + list[pos + 1..], listed - {list[pos]}, k)
  {
    hide Chained, Holds;
    ChainedAfterRemove(nodes, head, list, listed, sizes, k, pos);
    HoldsAfterRemove(sizes, nodes, list, listed, k, pos);
  }

  lemma HoldsAfterRemove(sizes: seq<nat>, nodes: Nodes, list: seq<nat>, listed: map<nat, nat>, k: nat, pos: nat)
    requires Holds(sizes, nodes, list, listed, k) && pos < |list| && (0 < pos ==> list[pos - 1] in nodes)
    ensures Holds(sizes, Bypassed(nodes, list, pos), list[..pos] + list[pos + 1..], listed - {list[pos]}, k)
  {
    WithoutPos(list, pos);
  }

  lemma WithoutPos(list: seq<nat>, pos: nat)
    requires pos < |list| && Distinct(list)
    ensures forall o :: o in list[..pos] + list[pos + 1..] <==> o in list && o != list[pos]
    ensures Distinct(list[..pos] + list[pos + 1..])
  {
    var list' := list[..pos] + list[pos + 1..];
    forall o | o in list && o != list[pos]
      ensures o in list'
    {
      var l :| 0 <= l < |list| && list[l] == o;
      assert list'[if l < pos then l else l - 1] == o;
    }
    forall o | o in list'
      ensures o in list && o != list[pos]
    {
      var l :| 0 <= l < |list'| && list'[l] == o;
      assert list[if l < pos then l else l + 1] == o;
    }
  }

  lemma ChainedAfterRemove(
    nodes: Nodes, head: Option<nat>, list: seq<nat>, listed: map<nat, nat>, sizes: seq<nat>, k: nat, pos: nat)
    requires Chained(nodes, head, list) && Holds(sizes, nodes, list, listed, k) && pos < |list|
    ensures 0 < pos ==> list[pos - 1] in nodes
    ensures Chained(Bypassed(nodes, list, pos), if pos == 0 then NextOf(list, 1) else head, list[..pos] + list[pos + 1..])
  {
    assert Distinct(list);
    hide Holds;
    if pos > 0 {
      assert ChainedAt(nodes, list, pos - 1);
    }
    var list', nodes' := list[..pos] + list[pos + 1..], Bypassed(nodes, list, pos);
    forall l | 0 <= l < |list'|
      ensures ChainedAt(nodes', list', l)
    {
      ChainedAtAfterRemove(nodes, list, pos, l);
    }
  }

  lemma ChainedAtAfterRemove(nodes: Nodes, list: seq<nat>, pos: nat, l: nat)
    requires Distinct(list) && pos < |list| && l < |list| - 1 && forall k :: 0 <= k < |list| ==> ChainedAt(nodes, list, k)
    ensures 0 < pos ==> list[pos - 1] in nodes
    ensures ChainedAt(Bypassed(nodes, list, pos), list[..pos] + list[pos + 1..], l)
  {
    if pos > 0 {
      assert ChainedAt(nodes, list, pos - 1);
    }
    assert ChainedAt(nodes, list, if l < pos then l else l + 1);
  }

  /** A chunk's own bucket is the first non-empty one that may hold its size. */
  lemma LooksWhereListed(
    sizes: seq<nat>, nodes: Nodes, chunks: seq<Option<nat>>, lists: seq<seq<nat>>, listed: map<nat, nat>, o: nat, size: nat, k: nat)
    requires Buckets(sizes, nodes, chunks, lists, listed) && (o in listed ==> listed[o] == size)
    requires k <= |sizes| && (k < |sizes| ==> size <= sizes[k] && chunks[k] != None)
    requires forall j :: 0 <= j < k ==> sizes[j] < size || chunks[j] == None
    ensures o in listed ==> k == BucketFor(sizes, size) && o in lists[k]
    ensures o !in listed ==> o !in lists[k]
  {
    assert Bucket(sizes, nodes, chunks[k], lists[k], listed, k);
    if o in listed {
      var b := BucketFor(sizes, size);
      assert Bucket(sizes, nodes, chunks[b], lists[b], listed, b);
      assert o in lists[b];
      assert chunks[b] == NextOf(lists[b], 0) != None;
    }
  }

  /** Chunks of at least this size are in no bucket before the one the search begins with. */
  lemma NoneLarge(
    sizes: seq<nat>, nodes: Nodes, chunks: seq<Option<nat>>, lists: seq<seq<nat>>, listed: map<nat, nat>, size: nat, first: nat, end: nat)
    requires Buckets(sizes, nodes, chunks, lists, listed) && first < |chunks| && end == |chunks|
    requires forall j :: 0 <= j < first ==> sizes[j] < size || chunks[j] == None
    requires forall k :: first <= k < end ==> chunks[k] == None || forall o :: o in lists[k] ==> o in listed && listed[o] < size
    ensures forall o :: o in listed ==> listed[o] < size
  {
    forall o | o in listed
      ensures listed[o] < size
    {
      var b := BucketFor(sizes, listed[o]);
      assert Bucket(sizes, nodes, chunks[b], lists[b], listed, b);
      assert o in lists[b];
      assert chunks[b] == NextOf(lists[b], 0) != None;
      assert b < first ==> sizes[b] < size;
    }
  }
}
