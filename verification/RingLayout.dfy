/**
 How entries lie in the buffer of pw_ring_buffer/prefixed_entry_ring_buffer.cc. Indices range over [0, N],
 where 0 and N are the same place: an index wraps only when it would pass N.
 */
module RingLayout {
  import opened Varint

  /** What a caller pushes: the data, and a number of its own. */
  datatype Item = Item(preamble: Uint32, data: Bytes)

  type Log = seq<Item>

  /** The length of the data as it is stored, in 32 bits. */
  function Length(item: Item): Uint32 {
    |item.data| % TWO_TO_THE_32
  }

  /** The bytes in front of the data: the caller's number, if the buffer keeps it, and the length. */
  function Header(preambles: bool, item: Item): (bytes: Bytes)
    ensures bytes != []
  {
    (if preambles then Encode(LEB128, item.preamble) else []) + Encode(LEB128, Length(item))
  }

  function Encoded(preambles: bool, item: Item): (bytes: Bytes)
    ensures |item.data| < |bytes|
  {
    Header(preambles, item) + item.data
  }

  function EncodedAll(preambles: bool, items: Log): Bytes {
    if items == [] then [] else Encoded(preambles, items[0]) + EncodedAll(preambles, items[1..])
  }

  lemma {:induction false} EncodedAllAppend(preambles: bool, items: Log, item: Item)
    ensures EncodedAll(preambles, items + [item]) == EncodedAll(preambles, items) + Encoded(preambles, item)
  {
    if items == [] {
      assert items + [item] == [item];
      assert EncodedAll(preambles, [item]) == Encoded(preambles, item) + EncodedAll(preambles, []);
    } else {
      assert (items + [item])[1..] == items[1..] + [item];
      EncodedAllAppend(preambles, items[1..], item);
    }
  }

  /** The last n items of a log. */
  function Last(log: Log, n: nat): Log
    requires n <= |log|
  {
    log[|log| - n..]
  }

  // ---------------------------------------------------------------- places in the circle

  /** IncrementIndex. */
  function Increment(size: nat, index: nat, count: nat): nat {
    if size < index + count then index + count - size else index + count
  }

  /** The place k behind an index. */
  function Slot(size: nat, start: nat, k: nat): (i: nat)
    requires start <= size && k < size
    ensures i < size
  {
    if start + k < size then start + k else start + k - size
  }

  /** How far a place is behind an index. */
  function Distance(size: nat, start: nat, i: nat): (k: nat)
    requires start <= size && i < size
    ensures k < size
  {
    if start <= i then i - start else i + size - start
  }

  /** The bytes from an index on, going around. */
  function Circle(b: Bytes, start: nat, length: nat): (bytes: Bytes)
    requires start <= |b| && length <= |b|
    ensures |bytes| == length
  {
    if start + length <= |b| then b[start..start + length] else b[start..] + b[..start + length - |b|]
  }

  lemma CircleAt(b: Bytes, start: nat, length: nat, k: nat)
    requires start <= |b| && k < length <= |b|
    ensures Circle(b, start, length)[k] == b[Slot(|b|, start, k)]
  {
  }

  lemma CircleIs(b: Bytes, start: nat, bytes: Bytes)
    requires start <= |b| && |bytes| <= |b|
    requires forall k :: 0 <= k < |bytes| ==> b[Slot(|b|, start, k)] == bytes[k]
    ensures Circle(b, start, |bytes|) == bytes
  {
    var c := Circle(b, start, |bytes|);
    forall k | 0 <= k < |bytes|
      ensures c[k] == bytes[k]
    {
      CircleAt(b, start, |bytes|, k);
      assert b[Slot(|b|, start, k)] == bytes[k];
    }
  }

  lemma CircleHas(b: Bytes, start: nat, bytes: Bytes, k: nat)
    requires start <= |b| && k < |bytes| <= |b| && Circle(b, start, |bytes|) == bytes
    ensures b[Slot(|b|, start, k)] == bytes[k]
  {
    CircleAt(b, start, |bytes|, k);
  }

  lemma CirclePrefix(b: Bytes, start: nat, m: nat, n: nat)
    requires start <= |b| && m <= n <= |b|
    ensures Circle(b, start, m) == Circle(b, start, n)[..m]
  {
    forall k | 0 <= k < m
      ensures Circle(b, start, m)[k] == Circle(b, start, n)[..m][k]
    {
      CircleAt(b, start, m, k);
      CircleAt(b, start, n, k);
    }
  }

  lemma SlotBehind(size: nat, start: nat, m: nat, k: nat)
    requires start <= size && m + k < size
    ensures Increment(size, start, m) <= size
    ensures Slot(size, Increment(size, start, m), k) == Slot(size, start, m + k)
  {
  }

  /** The bytes from place m behind an index are those from the incremented index. */
  lemma CircleSuffix(b: Bytes, start: nat, m: nat, n: nat)
    requires start <= |b| && m <= n <= |b|
    ensures Increment(|b|, start, m) <= |b|
    ensures Circle(b, Increment(|b|, start, m), n - m) == Circle(b, start, n)[m..]
  {
    var next := Increment(|b|, start, m);
    var bytes := Circle(b, start, n)[m..];
    hide Circle, Increment, Slot;
    forall k | 0 <= k < |bytes|
      ensures b[Slot(|b|, next, k)] == bytes[k]
    {
      SlotBehind(|b|, start, m, k);
      CircleAt(b, start, n, m + k);
    }
    CircleIs(b, next, bytes);
  }

  /** The buffer after bytes are written from an index on, going around. */
  function Overwritten(b: Bytes, start: nat, bytes: Bytes): (b': Bytes)
    requires start <= |b| && |bytes| <= |b|
    ensures |b'| == |b|
  {
    seq(|b|, i requires 0 <= i < |b| => var k := Distance(|b|, start, i); if k < |bytes| then bytes[k] else b[i])
  }

  lemma IncrementTwice(size: nat, index: nat, first: nat, second: nat)
    requires index <= size && first + second <= size
    ensures Increment(size, index, first) <= size
    ensures Increment(size, Increment(size, index, first), second) == Increment(size, index, first + second) <= size
  {
  }

  lemma OverwrittenTwice(b: Bytes, start: nat, first: Bytes, second: Bytes)
    requires start <= |b| && |first| + |second| <= |b|
    ensures Increment(|b|, start, |first|) <= |b|
    ensures Overwritten(Overwritten(b, start, first), Increment(|b|, start, |first|), second)
         == Overwritten(b, start, first + second)
  {
  }

  // ---------------------------------------------------------------- readers

  /** Behind `unread` bytes from the read index comes the write index, up to the two names of one place. */
  predicate Reaches(size: nat, read: nat, unread: nat, write: nat) {
    write == Increment(size, read, unread) || (read + unread == size && write == 0)
  }

  /** A reader of the last `count` entries of the log finds exactly their bytes between its index and the writer's. */
  ghost predicate Follows(preambles: bool, b: Bytes, log: Log, write: nat, read: nat, count: nat) {
    && read <= |b| && write <= |b| && count <= |log|
    && var unread := EncodedAll(preambles, Last(log, count));
    && |unread| <= |b|
    && Circle(b, read, |unread|) == unread
    && Reaches(|b|, read, |unread|, write)
  }

  /** The bytes a reader has not read. */
  function Unread(preambles: bool, log: Log, count: nat): nat
    requires count <= |log|
  {
    |EncodedAll(preambles, Last(log, count))|
  }

  lemma LastFront(preambles: bool, log: Log, count: nat)
    requires 0 < count <= |log|
    ensures Last(log, count)[0] == log[|log| - count] && Last(log, count)[1..] == Last(log, count - 1)
    ensures EncodedAll(preambles, Last(log, count))
         == Encoded(preambles, log[|log| - count]) + EncodedAll(preambles, Last(log, count - 1))
  {
  }

  /** More entries are more bytes. */
  lemma {:induction false} UnreadMonotone(preambles: bool, log: Log, m: nat, n: nat)
    requires m <= n <= |log|
    ensures Unread(preambles, log, m) <= Unread(preambles, log, n)
    ensures m < n ==> Unread(preambles, log, m) < Unread(preambles, log, n)
  {
    if m < n {
      LastFront(preambles, log, n);
      UnreadMonotone(preambles, log, m, n - 1);
    }
  }

  lemma UnreadZero(preambles: bool, log: Log, count: nat)
    requires count <= |log|
    ensures Unread(preambles, log, count) == 0 <==> count == 0
  {
    UnreadMonotone(preambles, log, 0, count);
  }

  lemma CaughtUp(preambles: bool, b: Bytes, log: Log, write: nat)
    requires write <= |b|
    ensures Follows(preambles, b, log, write, write, 0)
  {
  }

  lemma ReachesPush(size: nat, read: nat, unread: nat, write: nat, more: nat)
    requires read <= size && write <= size && Reaches(size, read, unread, write) && 0 < more && unread + more <= size
    ensures Reaches(size, read, unread + more, Increment(size, write, more)) && Increment(size, write, more) <= size
  {
  }

  /** Seen from the write index, unread bytes are out of reach of a write that fits, and new ones come in order. */
  lemma SlotFromWriter(size: nat, read: nat, unread: nat, write: nat, k: nat)
    requires read <= size && write <= size && Reaches(size, read, unread, write) && unread <= size && k < size
    ensures Distance(size, write, Slot(size, read, k)) == if k < unread then size - unread + k else k - unread
  {
  }

  /** Writing an entry into free space gives it to every reader, and leaves what they had. */
  lemma FollowsPush(preambles: bool, b: Bytes, log: Log, write: nat, read: nat, count: nat, item: Item)
    requires Follows(preambles, b, log, write, read, count)
    requires Unread(preambles, log, count) + |Encoded(preambles, item)| <= |b|
    ensures Follows(preambles, Overwritten(b, write, Encoded(preambles, item)), log + [item],
                    Increment(|b|, write, |Encoded(preambles, item)|), read, count + 1)
  {
    var e, unread := Encoded(preambles, item), EncodedAll(preambles, Last(log, count));
    assert Last(log + [item], count + 1) == Last(log, count) + [item];
    EncodedAllAppend(preambles, Last(log, count), item);
    OverwrittenBehind(b, read, unread, write, e);
    ReachesPush(|b|, read, |unread|, write, |e|);
  }

  lemma OverwrittenBehind(b: Bytes, read: nat, unread: Bytes, write: nat, e: Bytes)
    requires read <= |b| && write <= |b| && |unread| + |e| <= |b|
    requires Circle(b, read, |unread|) == unread && Reaches(|b|, read, |unread|, write)
    ensures Circle(Overwritten(b, write, e), read, |unread + e|) == unread + e
  {
    hide Circle, Slot, Distance, Reaches;
    var b', bytes := Overwritten(b, write, e), unread + e;
    forall k | 0 <= k < |bytes|
      ensures b'[Slot(|b|, read, k)] == bytes[k]
    {
      SlotFromWriter(|b|, read, |unread|, write, k);
      if k < |unread| {
        CircleHas(b, read, unread, k);
      }
    }
    CircleIs(b', read, bytes);
  }

  /** Skipping the front entry. */
  lemma FollowsPop(preambles: bool, b: Bytes, log: Log, write: nat, read: nat, count: nat)
    requires Follows(preambles, b, log, write, read, count) && 0 < count
    ensures count <= |log| && Last(log, count - 1) == Last(log, count)[1..]
    ensures |Encoded(preambles, log[|log| - count])|
         == |Header(preambles, log[|log| - count])| + |log[|log| - count].data|
    ensures Follows(preambles, b, log, write,
                    Increment(|b|, read, |Encoded(preambles, log[|log| - count])|), count - 1)
  {
    LastFront(preambles, log, count);
    CircleSuffix(b, read, |Encoded(preambles, log[|log| - count])|, Unread(preambles, log, count));
  }

  function Rotated(b: Bytes, start: nat): (b': Bytes)
    requires start <= |b|
    ensures |b'| == |b|
  {
    b[start..] + b[..start]
  }

  /** Where an index goes when the buffer is rotated to begin at `start`. */
  function Shifted(size: nat, index: nat, start: nat): nat
    requires start <= size
  {
    (if index < start then index + size else index) - start
  }

  lemma ReachesRotate(size: nat, read: nat, unread: nat, write: nat, front: nat)
    requires read <= size && write <= size && front <= size && unread <= size && 0 < size
    requires Reaches(size, read, unread, write)
    ensures Shifted(size, read, front) <= size && Shifted(size, write, front) <= size
    ensures Reaches(size, Shifted(size, read, front), unread, Shifted(size, write, front))
  {
  }

  lemma SlotRotated(size: nat, read: nat, front: nat, k: nat)
    requires read <= size && front <= size && k < size
    ensures Shifted(size, read, front) <= size
    ensures Slot(size, front, Slot(size, Shifted(size, read, front), k)) == Slot(size, read, k)
  {
  }

  /** Rotation, with the indices shifted, keeps what every reader sees; `front` is the rotating reader's index. */
  lemma FollowsRotate(preambles: bool, b: Bytes, log: Log, write: nat, read: nat, count: nat, front: nat)
    requires Follows(preambles, b, log, write, read, count) && front <= |b| && b != []
    ensures Shifted(|b|, read, front) <= |b| && Shifted(|b|, write, front) <= |b|
    ensures Follows(preambles, Rotated(b, front), log, Shifted(|b|, write, front), Shifted(|b|, read, front), count)
  {
    var unread := EncodedAll(preambles, Last(log, count));
    ReachesRotate(|b|, read, |unread|, write, front);
    CircleRotated(b, read, unread, front);
  }

  lemma CircleRotated(b: Bytes, read: nat, unread: Bytes, front: nat)
    requires read <= |b| && front <= |b| && |unread| <= |b| && Circle(b, read, |unread|) == unread
    ensures Shifted(|b|, read, front) <= |b|
    ensures Circle(Rotated(b, front), Shifted(|b|, read, front), |unread|) == unread
  {
    hide Circle, Shifted;
    var b', read' := Rotated(b, front), Shifted(|b|, read, front);
    ShiftedWithin(|b|, read, front);
    forall k | 0 <= k < |unread|
      ensures b'[Slot(|b|, read', k)] == unread[k]
    {
      CircleHas(b, read, unread, k);
      SlotRotated(|b|, read, front, k);
    }
    CircleIs(b', read', unread);
  }

  lemma ShiftedWithin(size: nat, read: nat, front: nat)
    requires read <= size && front <= size
    ensures Shifted(size, read, front) <= size
  {
  }

  // ---------------------------------------------------------------- space

  /** RawAvailableBytes for a slowest reader at `read` that has not read `unread` bytes. */
  lemma AvailableIsFree(size: nat, read: nat, unread: nat, write: nat)
    requires read <= size && write <= size && unread <= size && Reaches(size, read, unread, write)
    ensures read < write ==> size - (write - read) == size - unread
    ensures write < read ==> read - write == size - unread
    ensures read == write ==> unread == 0 || unread == size
  {
  }

  /** How many of the last `count` entries may stay so that `room` bytes hold them. */
  function Kept(preambles: bool, log: Log, count: nat, room: nat): (n: nat)
    requires count <= |log|
    ensures n <= count
    ensures Unread(preambles, log, n) <= room
  {
    if count == 0 || Unread(preambles, log, count) <= room then count else Kept(preambles, log, count - 1, room)
  }

  lemma KeptOneLess(preambles: bool, log: Log, count: nat, room: nat)
    requires 0 < count <= |log| && room < Unread(preambles, log, count)
    ensures Kept(preambles, log, count, room) == Kept(preambles, log, count - 1, room)
  {
  }

  lemma KeptAll(preambles: bool, log: Log, count: nat, room: nat)
    requires count <= |log| && Unread(preambles, log, count) <= room
    ensures Kept(preambles, log, count, room) == count
  {
  }

  /** Eviction is minimal: one entry more would not have fit. */
  lemma {:induction false} KeptIsMost(preambles: bool, log: Log, count: nat, room: nat, n: nat)
    requires n <= count <= |log| && Unread(preambles, log, n) <= room
    ensures n <= Kept(preambles, log, count, room)
  {
    if room < Unread(preambles, log, count) {
      assert n != count;
      KeptIsMost(preambles, log, count - 1, room, n);
    }
  }

  // ---------------------------------------------------------------- the front entry

  /** Reading five bytes from an index is enough to decode the varint that lies there, whatever follows it. */
  lemma DecodeAt(b: Bytes, start: nat, value: Uint32, n: nat)
    requires start <= |b| && MAX_VARINT32_SIZE <= |b| && n <= |b|
    requires Encode(LEB128, value) <= Circle(b, start, n)
    ensures Decode(LEB128, Circle(b, start, MAX_VARINT32_SIZE)) == (value, |Encode(LEB128, value)|)
  {
    var e := Encode(LEB128, value);
    EncodedSize(LEB128, value);
    CirclePrefix(b, start, |e|, n);
    CirclePrefix(b, start, |e|, MAX_VARINT32_SIZE);
    DecodeEncoded(LEB128, value, Circle(b, start, MAX_VARINT32_SIZE));
  }
}
